/**
 * The search tree of the path finder: class `Node` and the list `tree` the
 * search appends nodes to. A node's parent reference becomes the index of
 * the parent in that list, so a tree is a sequence of nodes whose parent
 * links point backwards.
 */
module SearchTree {
  import opened Wrappers
  import opened Grid
  import Terrain

  /** `Node`: its value (the score), its coordinates and its parent. */
  datatype Node = Node(score: int, cell: Cell, parent: Option<nat>)

  /** A `new Node()` that was never given coordinates, with its zero value
      rewritten to `int.MaxValue`: the placeholder the search appends for a
      neighbour it does not admit. */
  const Phantom: Node := Node(Terrain.IntMax, Cell(-1, -1), None)

  /** The root of a search: `new Node()` with the start coordinates set. */
  function Root(start: Cell): (n: Node)
    ensures n.cell == start && n.parent.None? && n != Phantom
  {
    Node(0, start, None)
  }

  /** a and b are distinct and one king move apart. */
  predicate Adjacent(a: Cell, b: Cell) {
    a != b && -1 <= a.x - b.x <= 1 && -1 <= a.y - b.y <= 1
  }

  /** Every parent link points to an earlier node. */
  ghost predicate ParentsBefore(tree: seq<Node>) {
    forall i :: 0 <= i < |tree| && tree[i].parent.Some? ==> tree[i].parent.value < i
  }

  /** Parent links point to earlier nodes one king move away, and every node
      a link points to is the first node or has a parent itself, so every
      walk along parent links ends at the first node. */
  ghost predicate WellLinked(tree: seq<Node>) {
    && ParentsBefore(tree)
    && forall i :: 0 <= i < |tree| && tree[i].parent.Some? ==>
         var p := tree[i].parent.value;
         Adjacent(tree[p].cell, tree[i].cell) && (p == 0 || tree[p].parent.Some?)
  }

  /** The cells met walking parent links from node i (as `OnTick` does to
      draw the path), node i first. */
  function PathFrom(tree: seq<Node>, i: nat): (path: seq<Cell>)
    requires i < |tree| && ParentsBefore(tree)
    ensures 1 <= |path| <= i + 1 && path[0] == tree[i].cell
    decreases i
  {
    match tree[i].parent
    case None => [tree[i].cell]
    case Some(p) => [tree[i].cell] + PathFrom(tree, p)
  }

  /** In a well-linked tree, the walk from the first node or from any node
      with a parent ends at the first node, one king move per step. */
  lemma {:induction false} WalkEndsAtRoot(tree: seq<Node>, i: nat)
    requires WellLinked(tree) && i < |tree| && (i == 0 || tree[i].parent.Some?)
    ensures PathFrom(tree, i)[|PathFrom(tree, i)| - 1] == tree[0].cell
    ensures forall k :: 0 <= k < |PathFrom(tree, i)| - 1 ==> Adjacent(PathFrom(tree, i)[k], PathFrom(tree, i)[k + 1])
    decreases i
  {
    if i == 0 {
      assert tree[0].parent.None?;
    } else {
      var p := tree[i].parent.value;
      WalkEndsAtRoot(tree, p);
      var rest := PathFrom(tree, p);
      assert PathFrom(tree, i) == [tree[i].cell] + rest;
      assert Adjacent(rest[0], tree[i].cell);
    }
  }

  /** The value `GetCurrentPathValue` accumulates from node i: one plus the
      node's value, for every node on the walk to the root. When nodes 0..i
      all have non-negative values it is at least the number of nodes on the
      walk. */
  function PathValue(tree: seq<Node>, i: nat): (v: int)
    requires i < |tree| && ParentsBefore(tree)
    ensures (forall k :: 0 <= k <= i ==> tree[k].score >= 0) ==> v >= |PathFrom(tree, i)|
    decreases i
  {
    tree[i].score + 1 + match tree[i].parent
      case None => 0
      case Some(p) => PathValue(tree, p)
  }

  /** `GetCurrentPathValue(node)`: walks parent links to the root, adding
      each node's value plus one. */
  method GetCurrentPathValue(tree: seq<Node>, i: nat) returns (steps: int)
    requires i < |tree| && ParentsBefore(tree)
    ensures steps == PathValue(tree, i)
  {
    steps := 0;
    var node: Option<nat> := Some(i);
    while node.Some?
      invariant node.Some? ==> node.value < |tree|
      invariant steps + (if node.Some? then PathValue(tree, node.value) else 0) == PathValue(tree, i)
      decreases if node.Some? then node.value + 1 else 0
    {
      steps := steps + tree[node.value].score;
      steps := steps + 1;
      node := tree[node.value].parent;
    }
  }
}
