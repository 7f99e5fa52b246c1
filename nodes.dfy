/**
 * Search-tree nodes (class `Node` of planpath.py).
 *
 * Python keeps nodes as heap objects linked by `parent`.  Here every node
 * ever stored lives in an arena `seq<Node>` and `parent` is the arena index of
 * the node that generated it, always smaller than the node's own index, so
 * every walk up the parent chain terminates.  Object identity (`is`, and `in`
 * on a list of nodes, since Node defines no `__eq__`) becomes equality of
 * arena indices.
 */
module Nodes {
  import opened Wrappers

  /** One search node; `f` is the priority `cost + heuristic`. */
  datatype Node = Node(
    id: nat,              // shared by every node built for the same cell
    op: string,           // "S" for a start node, else the move label
    cost: int,
    heuristic: int,
    f: int,
    parent: Option<nat>,  // arena index of the parent, None for a start node
    row: int,
    col: int,
    isGoal: bool)

  /** The record built by Node.__init__; `isGoal` is what the caller sets right after. */
  function NewNode(id: nat, op: string, cost: int, heuristic: int, parent: Option<nat>,
                   row: int, col: int, isGoal: bool): (r: Node)
    ensures r.f == r.cost + r.heuristic
    ensures r.id == id && r.op == op && r.cost == cost && r.heuristic == heuristic && r.parent == parent
    ensures r.row == row && r.col == col && r.isGoal == isGoal
  {
    Node(id, op, cost, heuristic, cost + heuristic, parent, row, col, isGoal)
  }

  /** Every parent link points to an earlier arena entry. */
  predicate Acyclic(nodes: seq<Node>) {
    forall k | 0 <= k < |nodes| :: nodes[k].parent.Some? ==> nodes[k].parent.value < k
  }

  /** Number of parent links from node `k` up to its root. */
  function Depth(nodes: seq<Node>, k: nat): nat
    requires Acyclic(nodes) && k < |nodes|
    decreases k
  {
    match nodes[k].parent
    case None => 0
    case Some(p) => Depth(nodes, p) + 1
  }

  /** Arena indices on the path from the root down to `k`, both included. */
  function PathTo(nodes: seq<Node>, k: nat): (path: seq<nat>)
    requires Acyclic(nodes) && k < |nodes|
    ensures forall t | 0 <= t < |path| :: path[t] <= k
    decreases k
  {
    match nodes[k].parent
    case None => [k]
    case Some(p) => PathTo(nodes, p) + [k]
  }

  /** Operator labels along the path from the root down to `k`. */
  function OpsAlong(nodes: seq<Node>, k: nat): seq<string>
    requires Acyclic(nodes) && k < |nodes|
    decreases k
  {
    match nodes[k].parent
    case None => [nodes[k].op]
    case Some(p) => OpsAlong(nodes, p) + [nodes[k].op]
  }

  /** Number of goal-flagged nodes on the path from the root down to `k`. */
  function GoalsAlong(nodes: seq<Node>, k: nat): nat
    requires Acyclic(nodes) && k < |nodes|
    decreases k
  {
    (match nodes[k].parent
     case None => 0
     case Some(p) => GoalsAlong(nodes, p)) + (if nodes[k].isGoal then 1 else 0)
  }

  /** The labels joined with "-" between consecutive ones. */
  function Join(ops: seq<string>): string {
    if |ops| == 0 then ""
    else if |ops| == 1 then ops[0]
    else ops[0] + "-" + Join(ops[1..])
  }

  /** `count` copies of the goal marker "-G". */
  function Marks(count: nat): string {
    if count == 0 then "" else Marks(count - 1) + "-G"
  }

  /** What get_operators_to_root returns for node `k`. */
  function OperatorsString(nodes: seq<Node>, k: nat): string
    requires Acyclic(nodes) && k < |nodes|
  {
    Join(OpsAlong(nodes, k)) + Marks(GoalsAlong(nodes, k))
  }

  /** Node.__len__: walks the parent chain counting nodes, and returns one less. */
  method Len(nodes: seq<Node>, k: nat) returns (depth: int)
    requires Acyclic(nodes) && k < |nodes|
    ensures depth == Depth(nodes, k)
    ensures depth == |PathTo(nodes, k)| - 1
  {
    var count := 0;
    var current: Option<nat> := Some(k);
    while current.Some?
      invariant current.Some? ==> current.value < |nodes| && count + Depth(nodes, current.value) == Depth(nodes, k)
      invariant current.None? ==> count == Depth(nodes, k) + 1
      decreases if current.Some? then current.value + 1 else 0
    {
      count := count + 1;
      current := nodes[current.value].parent;
    }
    depth := count - 1;
    PathToShape(nodes, k);
  }

  /**
   * Node.get_operators_to_root: walks from `k` to the root, prepending each
   * operator (with a "-" after it unless it is the first one met) and
   * appending "-G" whenever the node met has its goal flag set.
   */
  method OperatorsToRoot(nodes: seq<Node>, k: nat) returns (output: string)
    requires Acyclic(nodes) && k < |nodes|
    ensures output == Join(OpsAlong(nodes, k)) + Marks(GoalsAlong(nodes, k))
  {
    var current: Option<nat> := Some(k);
    output := "";
    var first := true;
    ghost var doneOps: seq<string> := [];
    ghost var doneGoals: nat := 0;
    while current.Some?
      invariant current.Some? ==> current.value < |nodes|
      invariant current.Some? ==> OpsAlong(nodes, k) == OpsAlong(nodes, current.value) + doneOps
      invariant current.Some? ==> GoalsAlong(nodes, k) == GoalsAlong(nodes, current.value) + doneGoals
      invariant current.None? ==> OpsAlong(nodes, k) == doneOps && GoalsAlong(nodes, k) == doneGoals
      invariant first <==> doneOps == []
      invariant output == Join(doneOps) + Marks(doneGoals)
      decreases if current.Some? then current.value + 1 else 0
    {
      var node := nodes[current.value];
      ghost var before := output;
      if node.isGoal {
        output := output + "-G";
      }
      if first {
        output := node.op + output;
        first := false;
      } else {
        output := node.op + "-" + output;
      }
      assert output == (if doneOps == [] then node.op else node.op + "-") + (before + if node.isGoal then "-G" else "");
      PrependStep(node.op, doneOps, doneGoals, node.isGoal);
      RootwardStep(nodes, k, current.value, doneOps, doneGoals);
      doneOps := [node.op] + doneOps;
      doneGoals := doneGoals + if node.isGoal then 1 else 0;
      current := node.parent;
    }
  }

  /** One round of get_operators_to_root's loop, stated on the labels and goal count still to collect. */
  lemma RootwardStep(nodes: seq<Node>, k: nat, c: nat, doneOps: seq<string>, doneGoals: nat)
    requires Acyclic(nodes) && k < |nodes| && c < |nodes|
    requires OpsAlong(nodes, k) == OpsAlong(nodes, c) + doneOps
    requires GoalsAlong(nodes, k) == GoalsAlong(nodes, c) + doneGoals
    ensures var ops, goals := [nodes[c].op] + doneOps, doneGoals + if nodes[c].isGoal then 1 else 0;
      match nodes[c].parent
      case None => OpsAlong(nodes, k) == ops && GoalsAlong(nodes, k) == goals
      case Some(p) =>
        (p < |nodes| && OpsAlong(nodes, k) == OpsAlong(nodes, p) + ops &&
         GoalsAlong(nodes, k) == GoalsAlong(nodes, p) + goals)
  {
    match nodes[c].parent {
      case None =>
      case Some(p) =>
        assert OpsAlong(nodes, c) + doneOps == OpsAlong(nodes, p) + ([nodes[c].op] + doneOps);
    }
  }

  /** One round of get_operators_to_root's loop, stated on strings. */
  lemma PrependStep(op: string, done: seq<string>, goals: nat, goal: bool)
    ensures (if done == [] then op else op + "-") + (Join(done) + Marks(goals) + (if goal then "-G" else ""))
         == Join([op] + done) + Marks(goals + if goal then 1 else 0)
  {
    if done != [] {
      assert ([op] + done)[1..] == done;
    }
  }

  /**
   * The path really is the parent chain: it starts at a root, each entry is
   * the parent of the next, it ends at `k`, and it has one more entry than
   * there are parent links.
   */
  lemma {:induction false} PathToShape(nodes: seq<Node>, k: nat)
    requires Acyclic(nodes) && k < |nodes|
    ensures var path := PathTo(nodes, k);
      |path| == Depth(nodes, k) + 1 && path[|path| - 1] == k &&
      nodes[path[0]].parent.None? &&
      forall t | 0 <= t < |path| - 1 :: nodes[path[t + 1]].parent == Some(path[t])
    decreases k
  {
    match nodes[k].parent
    case None =>
    case Some(p) =>
      PathToShape(nodes, p);
  }

  /** The operator labels are those of the path's nodes, in path order. */
  lemma {:induction false} OpsAlongPath(nodes: seq<Node>, k: nat)
    requires Acyclic(nodes) && k < |nodes|
    ensures var path := PathTo(nodes, k);
      |OpsAlong(nodes, k)| == |path| &&
      forall t | 0 <= t < |path| :: OpsAlong(nodes, k)[t] == nodes[path[t]].op
    decreases k
  {
    match nodes[k].parent
    case None =>
    case Some(p) =>
      OpsAlongPath(nodes, p);
  }

  /**
   * When no strict ancestor of `k` carries the goal flag, the string ends in
   * "-G" exactly when `k` itself does.
   */
  lemma {:induction false} GoalMarkOnlyAtEnd(nodes: seq<Node>, k: nat)
    requires Acyclic(nodes) && k < |nodes|
    requires forall t | 0 <= t < |PathTo(nodes, k)| - 1 :: !nodes[PathTo(nodes, k)[t]].isGoal
    ensures GoalsAlong(nodes, k) == if nodes[k].isGoal then 1 else 0
    ensures OperatorsString(nodes, k) == Join(OpsAlong(nodes, k)) + (if nodes[k].isGoal then "-G" else "")
    decreases k
  {
    match nodes[k].parent
    case None =>
    case Some(p) =>
      var path := PathTo(nodes, p);
      assert PathTo(nodes, k) == path + [k];
      PathToShape(nodes, p);
      forall t | 0 <= t < |path|
        ensures !nodes[path[t]].isGoal
      {
        assert PathTo(nodes, k)[t] == path[t];
      }
      GoalMarkOnlyAtEnd(nodes, p);
  }

  /**
   * Appending to the arena changes nothing about the nodes already in it:
   * their depth, path, labels and goal count stay the same.
   */
  lemma {:induction false} ArenaGrowth(nodes: seq<Node>, more: seq<Node>, k: nat)
    requires Acyclic(nodes) && Acyclic(more) && |nodes| <= |more| && more[..|nodes|] == nodes
    requires k < |nodes|
    ensures Depth(more, k) == Depth(nodes, k) && PathTo(more, k) == PathTo(nodes, k)
    ensures OpsAlong(more, k) == OpsAlong(nodes, k) && GoalsAlong(more, k) == GoalsAlong(nodes, k)
    decreases k
  {
    assert more[k] == nodes[k];
    match nodes[k].parent
    case None =>
    case Some(p) =>
      ArenaGrowth(nodes, more, p);
  }
}
