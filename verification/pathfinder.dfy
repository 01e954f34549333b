/**
 * `FindPath`: a best-first search over the map from the player's cell to the
 * destination, marking cells visited when they are generated. The search
 * tree is a list in blocks of nine: the expanded node (the head of its
 * block), then one slot for each of the eight neighbours, holding either
 * the node generated for it or a phantom when the neighbour is out of the
 * map, already visited or water.
 */
module Pathfinder {
  import opened Wrappers
  import opened Grid
  import Terrain
  import opened Heap
  import opened SearchTree

  /** The score of a generated node. The program adds a step cost (1 or the
      square root of 2), the parent's `GetCurrentPathValue`, the straight-line
      distance to the destination and `GetTileValue`; for every admitted cell
      that sum is at least 1, and only its positivity matters here. */
  type Positive = x: int | x > 0 witness 1

  /** The heap orders nodes by value. */
  function Key(n: Node): int {
    n.score
  }

  /** Which extraction the search pops with: the program's, or the one that
      keeps heap order. Both remove exactly the root. */
  datatype Extraction = AsWritten | Intended

  function Pop(s: seq<Node>, how: Extraction): (r: seq<Node>)
    ensures |s| > 0 ==> |r| == |s| - 1 && multiset(r) == multiset(s[1..])
  {
    match how
    case AsWritten => ExtractMin(s, Key)
    case Intended => ExtractMinIntended(s, Key)
  }

  /** `heap.GetMinNode()` followed by `heap.ExtractMin()`, as the search
      loop does them: the root is taken and exactly it is removed. */
  method TakeMin(heap: seq<Node>, how: Extraction) returns (cur: Node, rest: seq<Node>)
    requires |heap| > 0
    ensures cur == heap[0] && |rest| == |heap| - 1
    ensures multiset(rest) == multiset(heap[1..])
  {
    cur := GetMinNode(heap).value;
    rest := Pop(heap, how);
  }

  /** `heap.Insert(node)`: the heap grows by exactly that node. The
      membership conjunct follows from the multiset one and is kept so that
      the first insert reads as `[root]` without multiset reasoning. */
  method Push(heap: seq<Node>, n: Node) returns (grown: seq<Node>)
    ensures |grown| == |heap| + 1 && n in grown
    ensures multiset(grown) == multiset(heap) + multiset{n}
  {
    grown := Insert(heap, n, Key);
    assert n in multiset(grown);
  }

  /** Neighbour d of c, in the order the search fills a block: left, right,
      up, down, up-left, up-right, down-left, down-right. */
  function Neighbour(c: Cell, d: int): (n: Cell)
    requires 1 <= d <= 8
    ensures Adjacent(c, n)
  {
    match d
    case 1 => Cell(c.x - 1, c.y)
    case 2 => Cell(c.x + 1, c.y)
    case 3 => Cell(c.x, c.y - 1)
    case 4 => Cell(c.x, c.y + 1)
    case 5 => Cell(c.x - 1, c.y - 1)
    case 6 => Cell(c.x + 1, c.y - 1)
    case 7 => Cell(c.x - 1, c.y + 1)
    case _ => Cell(c.x + 1, c.y + 1)
  }

  /** The eight directions reach eight different cells, and every king move
      is one of them. */
  lemma NeighboursAreTheKingMoves(c: Cell, n: Cell)
    ensures forall d, e :: 1 <= d < e <= 8 ==> Neighbour(c, d) != Neighbour(c, e)
    ensures Adjacent(c, n) ==> exists d :: 1 <= d <= 8 && Neighbour(c, d) == n
  {
    if Adjacent(c, n) {
      var d := if n.y == c.y then (if n.x < c.x then 1 else 2)
        else if n.x == c.x then (if n.y < c.y then 3 else 4)
        else if n.y < c.y then (if n.x < c.x then 5 else 6)
        else (if n.x < c.x then 7 else 8);
      assert Neighbour(c, d) == n;
    }
  }

  /** The bounds test the search makes before generating neighbour d: only
      the coordinates that move are tested. */
  function StepInside(c: Cell, d: int, w: int, h: int): (b: bool)
    requires 1 <= d <= 8
    ensures InBounds(c, w, h) ==> (b <==> InBounds(Neighbour(c, d), w, h))
  {
    match d
    case 1 => c.x - 1 >= 0
    case 2 => c.x + 1 < w
    case 3 => c.y - 1 >= 0
    case 4 => c.y + 1 < h
    case 5 => c.x - 1 >= 0 && c.y - 1 >= 0
    case 6 => c.x + 1 < w && c.y - 1 >= 0
    case 7 => c.x - 1 >= 0 && c.y + 1 < h
    case _ => c.x + 1 < w && c.y + 1 < h
  }

  /** c lies on the map and is not water. */
  ghost predicate Dry(terrain: seq<seq<int>>, c: Cell) {
    0 <= c.x < |terrain| && 0 <= c.y < |terrain[c.x]| && !Terrain.IsWater(terrain[c.x][c.y])
  }

  /** c is on the grid and marked. */
  predicate Seen(visited: seq<seq<bool>>, c: Cell) {
    0 <= c.x < |visited| && 0 <= c.y < |visited[c.x]| && visited[c.x][c.y]
  }

  /** n was generated from the head at slot p: one king move from it, on
      the map and not water. */
  ghost predicate Child(terrain: seq<seq<int>>, w: nat, h: nat, tree: seq<Node>, n: Node, p: int) {
    && 0 <= p < |tree| && p % 9 == 0
    && n.parent == Some(p)
    && Adjacent(tree[p].cell, n.cell)
    && InBounds(n.cell, w, h) && Dry(terrain, n.cell)
  }

  /** Slot i holds a node generated for a neighbour (not a phantom, not a head). */
  predicate Generated(tree: seq<Node>, i: int) {
    0 < i < |tree| && i % 9 != 0 && tree[i].parent.Some?
  }

  /** Neighbour slot i holds a phantom or the node generated from the head
      of its block in the direction the slot stands for. */
  ghost predicate SlotOk(terrain: seq<seq<int>>, w: nat, h: nat, tree: seq<Node>, i: int) {
    && 0 < i < |tree| && i % 9 != 0
    && (tree[i] == Phantom ||
        (Child(terrain, w, h, tree, tree[i], i - i % 9) && tree[i].cell == Neighbour(tree[i - i % 9].cell, i % 9)))
  }

  /** Head slot i (not the root) holds a node popped from the heap, hence
      one generated from an earlier head. */
  ghost predicate HeadOk(terrain: seq<seq<int>>, w: nat, h: nat, tree: seq<Node>, i: int) {
    && 0 < i < |tree| && i % 9 == 0
    && tree[i].parent.Some? && tree[i].parent.value < i
    && Child(terrain, w, h, tree, tree[i], tree[i].parent.value)
  }

  /** The shape of the tree: the root first, then blocks of a head and
      eight neighbour slots. */
  ghost predicate TreeOk(terrain: seq<seq<int>>, w: nat, h: nat, start: Cell, tree: seq<Node>) {
    && (|tree| > 0 ==> tree[0] == Root(start))
    && (forall i :: 0 < i < |tree| && i % 9 == 0 ==> HeadOk(terrain, w, h, tree, i))
    && (forall i :: 0 < i < |tree| && i % 9 != 0 ==> SlotOk(terrain, w, h, tree, i))
  }

  /** A heap entry: a generated node whose cell is marked. */
  ghost predicate Entry(terrain: seq<seq<int>>, w: nat, h: nat, tree: seq<Node>, visited: seq<seq<bool>>, n: Node) {
    n.parent.Some? && Child(terrain, w, h, tree, n, n.parent.value) && Seen(visited, n.cell)
  }

  /** Everything the search keeps true between steps: the tree's shape,
      generated cells pairwise distinct, different from the start and
      marked, and every heap entry a marked generated node. */
  ghost predicate Consistent(terrain: seq<seq<int>>, w: nat, h: nat, start: Cell,
                             tree: seq<Node>, heap: seq<Node>, visited: seq<seq<bool>>)
  {
    && IsRect(visited, w, h)
    && TreeOk(terrain, w, h, start, tree)
    && (forall i, j {:trigger Generated(tree, i), Generated(tree, j)} ::
          Generated(tree, i) && Generated(tree, j) && i < j ==> tree[i].cell != tree[j].cell)
    && (forall i {:trigger Generated(tree, i)} :: Generated(tree, i) ==> tree[i].cell != start && Seen(visited, tree[i].cell))
    && (|tree| > 0 ==> Seen(visited, start))
    && (|tree| > 0 ==> forall n :: n in heap ==> Entry(terrain, w, h, tree, visited, n))
  }

  /** Some slot of the tree stands on c. */
  ghost predicate CellIn(tree: seq<Node>, c: Cell) {
    exists j :: 0 <= j < |tree| && tree[j].cell == c
  }

  /** Some head of the tree, the root included, stands on c. */
  ghost predicate HeadCell(tree: seq<Node>, c: Cell) {
    exists j :: 0 <= j < |tree| && j % 9 == 0 && tree[j].cell == c
  }

  /** x has been popped and appended as a head. */
  ghost predicate Popped(tree: seq<Node>, x: Node) {
    exists j :: 0 < j < |tree| && j % 9 == 0 && tree[j] == x
  }

  /** Neighbour slot i stands for a cell the search could not take: off the
      map, water, or one the tree already holds. */
  ghost predicate Blocked(terrain: seq<seq<int>>, w: nat, h: nat, tree: seq<Node>, i: int) {
    && 0 < i < |tree| && i % 9 != 0
    && var nb := Neighbour(tree[i - i % 9].cell, i % 9);
       !InBounds(nb, w, h) || !Dry(terrain, nb) || CellIn(tree, nb)
  }

  /** Slot i is a neighbour slot holding a phantom. */
  ghost predicate PhantomSlot(tree: seq<Node>, i: int) {
    0 < i < |tree| && i % 9 != 0 && tree[i] == Phantom
  }

  /** A cell the search may still generate: on the map, not water, unmarked. */
  ghost predicate Open(terrain: seq<seq<int>>, w: nat, h: nat, visited: seq<seq<bool>>, c: Cell) {
    InBounds(c, w, h) && Dry(terrain, c) && !Seen(visited, c)
  }

  /** What makes the search complete, kept between steps: every marked cell
      is held by a slot, every phantom stands for a blocked neighbour, and
      every generated node is still in the heap or has been popped. */
  ghost predicate Complete(terrain: seq<seq<int>>, w: nat, h: nat,
                           tree: seq<Node>, heap: seq<Node>, visited: seq<seq<bool>>)
  {
    && (forall c :: Seen(visited, c) ==> CellIn(tree, c))
    && (forall i :: PhantomSlot(tree, i) ==> Blocked(terrain, w, h, tree, i))
    && (forall i :: Generated(tree, i) ==> tree[i] in heap || Popped(tree, tree[i]))
  }

  lemma ChildGrows(terrain: seq<seq<int>>, w: nat, h: nat, tree: seq<Node>, x: Node, n: Node, p: int)
    requires Child(terrain, w, h, tree, n, p)
    ensures Child(terrain, w, h, tree + [x], n, p)
  {
    assert (tree + [x])[p] == tree[p];
  }

  /** Appending a slot that fits its position keeps the shape. */
  lemma TreeGrows(terrain: seq<seq<int>>, w: nat, h: nat, start: Cell, tree: seq<Node>, x: Node)
    requires TreeOk(terrain, w, h, start, tree)
    requires |tree| == 0 ==> x == Root(start)
    requires |tree| > 0 && |tree| % 9 == 0 ==> HeadOk(terrain, w, h, tree + [x], |tree|)
    requires |tree| > 0 && |tree| % 9 != 0 ==> SlotOk(terrain, w, h, tree + [x], |tree|)
    ensures TreeOk(terrain, w, h, start, tree + [x])
    ensures forall i :: Generated(tree + [x], i) && i < |tree| ==> Generated(tree, i) && (tree + [x])[i] == tree[i]
  {
    var t := tree + [x];
    forall i | 0 < i < |t| && i % 9 == 0
      ensures HeadOk(terrain, w, h, t, i)
    {
      if i < |tree| {
        assert HeadOk(terrain, w, h, tree, i);
        ChildGrows(terrain, w, h, tree, x, tree[i], tree[i].parent.value);
      }
    }
    forall i | 0 < i < |t| && i % 9 != 0
      ensures SlotOk(terrain, w, h, t, i)
    {
      if i < |tree| {
        assert SlotOk(terrain, w, h, tree, i);
        if tree[i] != Phantom {
          ChildGrows(terrain, w, h, tree, x, tree[i], i - i % 9);
        }
      }
    }
  }

  /** The first pop takes the root: the tree becomes the root alone. */
  lemma FirstHead(terrain: seq<seq<int>>, w: nat, h: nat, start: Cell,
                                     heap: seq<Node>, visited: seq<seq<bool>>)
    requires IsRect(visited, w, h) && InBounds(start, w, h)
    requires |heap| == 0
    ensures Consistent(terrain, w, h, start, [Root(start)], heap, Mark(visited, start))
  {
    TreeGrows(terrain, w, h, start, [], Root(start));
    assert [] + [Root(start)] == [Root(start)];
  }

  /** A later pop takes a heap entry and appends it as the next head. */
  lemma NextHead(terrain: seq<seq<int>>, w: nat, h: nat, start: Cell,
                                    tree: seq<Node>, heap: seq<Node>, visited: seq<seq<bool>>, cur: Node, rest: seq<Node>)
    requires Consistent(terrain, w, h, start, tree, heap, visited)
    requires |tree| > 0 && |tree| % 9 == 0 && cur in heap
    requires forall n :: n in rest ==> n in heap
    ensures Consistent(terrain, w, h, start, tree + [cur], rest, Mark(visited, cur.cell))
    ensures InBounds(cur.cell, w, h) && Mark(visited, cur.cell) == visited
  {
    var t := tree + [cur];
    assert Entry(terrain, w, h, tree, visited, cur);
    ChildGrows(terrain, w, h, tree, cur, cur, cur.parent.value);
    assert HeadOk(terrain, w, h, t, |tree|);
    TreeGrows(terrain, w, h, start, tree, cur);
    MarkUnvisited(visited, cur.cell);
    forall n | n in rest
      ensures Entry(terrain, w, h, t, visited, n)
    {
      assert Entry(terrain, w, h, tree, visited, n);
      ChildGrows(terrain, w, h, tree, cur, n, n.parent.value);
    }
  }

  /** Appending a phantom for a neighbour that is not admitted. */
  lemma AddPhantom(terrain: seq<seq<int>>, w: nat, h: nat, start: Cell,
                                      tree: seq<Node>, heap: seq<Node>, visited: seq<seq<bool>>)
    requires Consistent(terrain, w, h, start, tree, heap, visited)
    requires |tree| > 0 && |tree| % 9 != 0
    ensures Consistent(terrain, w, h, start, tree + [Phantom], heap, visited)
  {
    var t := tree + [Phantom];
    assert SlotOk(terrain, w, h, t, |tree|);
    TreeGrows(terrain, w, h, start, tree, Phantom);
    forall n | n in heap
      ensures Entry(terrain, w, h, t, visited, n)
    {
      assert Entry(terrain, w, h, tree, visited, n);
      ChildGrows(terrain, w, h, tree, Phantom, n, n.parent.value);
    }
  }

  /** Marking a cell keeps every mark. */
  lemma MarkKeeps(visited: seq<seq<bool>>, c: Cell, d: Cell)
    requires 0 <= c.x < |visited| && 0 <= c.y < |visited[c.x]|
    ensures Seen(Mark(visited, c), d) <==> Seen(visited, d) || d == c
  {
  }

  /** Generating the node for neighbour d of the head at slot e. */
  lemma AddChild(terrain: seq<seq<int>>, w: nat, h: nat, start: Cell,
                                    tree: seq<Node>, heap: seq<Node>, visited: seq<seq<bool>>,
                                    e: nat, d: int, n: Node, heap': seq<Node>)
    requires Consistent(terrain, w, h, start, tree, heap, visited)
    requires e % 9 == 0 && 1 <= d <= 8 && |tree| == e + d
    requires n.cell == Neighbour(tree[e].cell, d) && n.parent == Some(e)
    requires InBounds(n.cell, w, h) && Dry(terrain, n.cell) && !Seen(visited, n.cell)
    requires forall m :: m in heap' ==> m in heap || m == n
    ensures Consistent(terrain, w, h, start, tree + [n], heap', Mark(visited, n.cell))
  {
    var t := tree + [n];
    var v := Mark(visited, n.cell);
    assert Child(terrain, w, h, t, n, e);
    assert SlotOk(terrain, w, h, t, |tree|);
    TreeGrows(terrain, w, h, start, tree, n);
    forall c ensures Seen(v, c) <==> Seen(visited, c) || c == n.cell {
      MarkKeeps(visited, n.cell, c);
    }
    forall m | m in heap'
      ensures Entry(terrain, w, h, t, v, m)
    {
      if m != n {
        assert Entry(terrain, w, h, tree, visited, m);
        ChildGrows(terrain, w, h, tree, n, m, m.parent.value);
      }
    }
    forall i | Generated(t, i)
      ensures t[i].cell != start && Seen(v, t[i].cell)
    {
      if i < |tree| {
        assert Generated(tree, i);
      }
    }
    forall i, j | Generated(t, i) && Generated(t, j) && i < j
      ensures t[i].cell != t[j].cell
    {
      assert Generated(tree, i);
      if j < |tree| {
        assert Generated(tree, j);
      }
    }
  }

  /** Appending a slot keeps every held cell, every pop and every blocked
      phantom, and holds the new slot's cell. */
  lemma SlotsGrow(terrain: seq<seq<int>>, w: nat, h: nat, tree: seq<Node>, x: Node)
    ensures forall c :: CellIn(tree, c) ==> CellIn(tree + [x], c)
    ensures CellIn(tree + [x], x.cell)
    ensures forall y :: Popped(tree, y) ==> Popped(tree + [x], y)
    ensures forall i :: Blocked(terrain, w, h, tree, i) ==> Blocked(terrain, w, h, tree + [x], i)
  {
    var t := tree + [x];
    forall c | CellIn(tree, c)
      ensures CellIn(t, c)
    {
      var j :| 0 <= j < |tree| && tree[j].cell == c;
      assert t[j] == tree[j];
    }
    assert t[|tree|] == x;
    forall y | Popped(tree, y)
      ensures Popped(t, y)
    {
      var j :| 0 < j < |tree| && j % 9 == 0 && tree[j] == y;
      assert t[j] == tree[j];
    }
    forall i | Blocked(terrain, w, h, tree, i)
      ensures Blocked(terrain, w, h, t, i)
    {
      assert t[i - i % 9] == tree[i - i % 9];
    }
  }

  /** Before the first pop nothing is marked, held or generated. */
  lemma CompleteAtStart(terrain: seq<seq<int>>, w: nat, h: nat, start: Cell)
    ensures Complete(terrain, w, h, [], [Root(start)], Cleared(w, h))
  {
    forall c | Seen(Cleared(w, h), c)
      ensures false
    {
    }
  }

  /** The first pop marks the start and holds it in the root. */
  lemma CompleteFirst(terrain: seq<seq<int>>, w: nat, h: nat, start: Cell,
                      heap: seq<Node>, visited: seq<seq<bool>>)
    requires IsRect(visited, w, h) && InBounds(start, w, h)
    requires Complete(terrain, w, h, [], heap, visited)
    ensures Complete(terrain, w, h, [Root(start)], [], Mark(visited, start))
  {
    var t := [Root(start)];
    forall c | Seen(Mark(visited, start), c)
      ensures CellIn(t, c)
    {
      MarkKeeps(visited, start, c);
      assert t[0].cell == start;
    }
  }

  /** A later pop appends the popped entry as a head, so it counts as popped. */
  lemma CompleteNext(terrain: seq<seq<int>>, w: nat, h: nat,
                     tree: seq<Node>, heap: seq<Node>, visited: seq<seq<bool>>, rest: seq<Node>)
    requires Complete(terrain, w, h, tree, heap, visited)
    requires |tree| > 0 && |tree| % 9 == 0 && |heap| > 0
    requires multiset(rest) == multiset(heap[1..])
    ensures Complete(terrain, w, h, tree + [heap[0]], rest, visited)
  {
    var cur := heap[0];
    var t := tree + [cur];
    SlotsGrow(terrain, w, h, tree, cur);
    assert Popped(t, cur) by {
      assert t[|tree|] == cur;
    }
    assert heap == [cur] + heap[1..];
    forall i | Generated(t, i)
      ensures t[i] in rest || Popped(t, t[i])
    {
      assert t[i] == tree[i] && Generated(tree, i);
      if t[i] != cur && t[i] in heap {
        assert t[i] in multiset(heap[1..]);
      }
    }
    forall i | 0 < i < |t| && i % 9 != 0 && t[i] == Phantom
      ensures Blocked(terrain, w, h, t, i)
    {
      assert t[i] == tree[i];
    }
  }

  /** A phantom appended for a neighbour that is off the map, water or
      already marked is blocked. */
  lemma CompletePhantom(terrain: seq<seq<int>>, w: nat, h: nat,
                        tree: seq<Node>, heap: seq<Node>, visited: seq<seq<bool>>, e: nat, d: int)
    requires Complete(terrain, w, h, tree, heap, visited)
    requires e % 9 == 0 && 1 <= d <= 8 && |tree| == e + d
    requires !Open(terrain, w, h, visited, Neighbour(tree[e].cell, d))
    ensures Complete(terrain, w, h, tree + [Phantom], heap, visited)
  {
    var t := tree + [Phantom];
    SlotsGrow(terrain, w, h, tree, Phantom);
    ModNine(e / 9, d);
    assert |tree| % 9 == d && t[e] == tree[e];
    assert Blocked(terrain, w, h, t, |tree|);
    forall i | Generated(t, i)
      ensures t[i] in heap || Popped(t, t[i])
    {
      assert t[i] == tree[i] && Generated(tree, i);
    }
    forall i | 0 < i < |t| && i % 9 != 0 && t[i] == Phantom
      ensures Blocked(terrain, w, h, t, i)
    {
      if i < |tree| {
        assert t[i] == tree[i];
      }
    }
  }

  /** A generated node is held by its new slot and waits in the heap. */
  lemma CompleteChild(terrain: seq<seq<int>>, w: nat, h: nat,
                      tree: seq<Node>, heap: seq<Node>, visited: seq<seq<bool>>, n: Node, heap': seq<Node>)
    requires IsRect(visited, w, h) && InBounds(n.cell, w, h)
    requires Complete(terrain, w, h, tree, heap, visited)
    requires multiset(heap') == multiset(heap) + multiset{n}
    ensures Complete(terrain, w, h, tree + [n], heap', Mark(visited, n.cell))
  {
    var t := tree + [n];
    var v := Mark(visited, n.cell);
    SlotsGrow(terrain, w, h, tree, n);
    assert n in multiset(heap');
    forall c | Seen(v, c)
      ensures CellIn(t, c)
    {
      MarkKeeps(visited, n.cell, c);
    }
    forall i | Generated(t, i)
      ensures t[i] in heap' || Popped(t, t[i])
    {
      if i < |tree| {
        assert t[i] == tree[i] && Generated(tree, i);
        if t[i] in heap {
          assert t[i] in multiset(heap');
        }
      }
    }
    forall i | 0 < i < |t| && i % 9 != 0 && t[i] == Phantom
      ensures Blocked(terrain, w, h, t, i)
    {
      if i < |tree| {
        assert t[i] == tree[i];
      }
    }
  }

  /** A tree of this shape is well linked. */
  lemma TreeIsWellLinked(terrain: seq<seq<int>>, w: nat, h: nat, start: Cell, tree: seq<Node>)
    requires TreeOk(terrain, w, h, start, tree)
    ensures WellLinked(tree)
  {
    forall i | 0 <= i < |tree| && tree[i].parent.Some?
      ensures tree[i].parent.value < i
      ensures Child(terrain, w, h, tree, tree[i], tree[i].parent.value)
    {
      if i % 9 != 0 {
        assert SlotOk(terrain, w, h, tree, i);
      } else {
        assert tree[0].parent.None?;
        assert i > 0;
        assert HeadOk(terrain, w, h, tree, i);
      }
    }
    forall i | 0 <= i < |tree| && tree[i].parent.Some?
      ensures tree[i].parent.value == 0 || tree[tree[i].parent.value].parent.Some?
    {
      var p := tree[i].parent.value;
      assert Child(terrain, w, h, tree, tree[i], p);
      if p != 0 {
        assert HeadOk(terrain, w, h, tree, p);
      }
    }
  }

  lemma ModNine(k: nat, d: int)
    requires 0 <= d < 9
    ensures (9 * k + d) % 9 == d
  {
  }

  /** Slot e + d of the block headed at e = 9k is neighbour slot d. */
  lemma SlotOfBlock(e: nat, k: nat, d: int, s: int)
    requires e == 9 * k && 0 <= d < 9 && s == e + d
    ensures s % 9 == d && e % 9 == 0 && s - s % 9 == e
  {
    ModNine(k, 0);
    ModNine(k, d);
  }

  /** Appending a neighbour slot adds no head. */
  lemma HeadsUnchanged(tree: seq<Node>, x: Node, goal: Cell)
    requires |tree| % 9 != 0
    requires HeadsAvoid(tree, goal, |tree|)
    ensures HeadsAvoid(tree + [x], goal, |tree| + 1)
  {
  }

  /** Neighbour slot d of the head at slot e: a neighbour on the map, not
      yet visited and not water gets a node (scored, inserted into the heap,
      marked visited, appended); any other gets a phantom. */
  method FillSlot(terrain: seq<seq<int>>, w: nat, h: nat, start: Cell,
                  score: (seq<Node>, nat, Cell) -> Positive,
                  tree: seq<Node>, heap: seq<Node>, visited: seq<seq<bool>>,
                  e: nat, ghost k: nat, d: int)
    returns (tree': seq<Node>, heap': seq<Node>, visited': seq<seq<bool>>)
    requires IsRect(terrain, w, h) && e == 9 * k && 1 <= d <= 8 && |tree| == e + d
    requires InBounds(tree[e].cell, w, h)
    requires Consistent(terrain, w, h, start, tree, heap, visited)
    requires Complete(terrain, w, h, tree, heap, visited)
    ensures Consistent(terrain, w, h, start, tree', heap', visited')
    ensures Complete(terrain, w, h, tree', heap', visited')
    ensures |tree'| == |tree| + 1 && tree' == tree + [tree'[|tree|]]
    ensures tree'[|tree|] != Phantom <==> Open(terrain, w, h, visited, Neighbour(tree[e].cell, d))
    ensures forall c :: c != Neighbour(tree[e].cell, d) ==> (Seen(visited', c) <==> Seen(visited, c))
    ensures |heap'| + Unvisited(visited') == |heap| + Unvisited(visited)
  {
    SlotOfBlock(e, k, d, |tree|);
    var nb := Neighbour(tree[e].cell, d);
    var n := Node(0, Cell(-1, -1), None);
    if StepInside(tree[e].cell, d, w, h) && !At(visited, nb) && !Terrain.IsWater(terrain[nb.x][nb.y]) {
      n := Node(score(tree, e, nb), nb, Some(e));
      var grown := Push(heap, n);
      forall m | m in grown
        ensures m in heap || m == n
      {
        assert m in multiset(grown);
      }
      AddChild(terrain, w, h, start, tree, heap, visited, e, d, n, grown);
      CompleteChild(terrain, w, h, tree, heap, visited, n, grown);
      MarkUnvisited(visited, nb);
      forall c | c != nb
        ensures Seen(Mark(visited, nb), c) <==> Seen(visited, c)
      {
        MarkKeeps(visited, nb, c);
      }
      tree', heap', visited' := tree + [n], grown, Mark(visited, nb);
    } else {
      // The score of a generated node is positive, so only the untouched
      // node still scores 0 here; it becomes the phantom.
      n := n.(score := Terrain.IntMax);
      assert !Open(terrain, w, h, visited, nb);
      AddPhantom(terrain, w, h, start, tree, heap, visited);
      CompletePhantom(terrain, w, h, tree, heap, visited, e, d);
      tree', heap', visited' := tree + [n], heap, visited;
    }
  }

  /** Slot x, for neighbour d of c, holds a node exactly when that
      neighbour was open. */
  ghost predicate SlotMatches(terrain: seq<seq<int>>, w: nat, h: nat, visited: seq<seq<bool>>,
                              c: Cell, x: Node, d: int)
  {
    1 <= d <= 8 && (x != Phantom <==> Open(terrain, w, h, visited, Neighbour(c, d)))
  }

  /** Filling slot d keeps the slots so far matched against the marks at
      the start of the expansion, and leaves neighbours d + 1 .. 8 as open
      as they were: the eight neighbours are distinct, so marking one never
      blocks another. */
  lemma SlotStep(terrain: seq<seq<int>>, w: nat, h: nat,
                 visited: seq<seq<bool>>, before: seq<seq<bool>>, after: seq<seq<bool>>,
                 c: Cell, tree: seq<Node>, t: seq<Node>, e: nat, d: int)
    requires 1 <= d <= 8 && |tree| == e + d && |t| == |tree| + 1 && t == tree + [t[|tree|]]
    requires forall i :: e < i < |tree| ==> SlotMatches(terrain, w, h, visited, c, tree[i], i - e)
    requires forall d' :: d <= d' <= 8 ==>
      (Open(terrain, w, h, before, Neighbour(c, d')) <==> Open(terrain, w, h, visited, Neighbour(c, d')))
    requires t[|tree|] != Phantom <==> Open(terrain, w, h, before, Neighbour(c, d))
    requires forall x :: x != Neighbour(c, d) ==> (Seen(after, x) <==> Seen(before, x))
    ensures forall i :: e < i < |t| ==> SlotMatches(terrain, w, h, visited, c, t[i], i - e)
    ensures forall d' :: d + 1 <= d' <= 8 ==>
      (Open(terrain, w, h, after, Neighbour(c, d')) <==> Open(terrain, w, h, visited, Neighbour(c, d')))
  {
    NeighboursAreTheKingMoves(c, c);
    forall i | e < i < |t|
      ensures SlotMatches(terrain, w, h, visited, c, t[i], i - e)
    {
      if i < |tree| {
        assert t[i] == tree[i];
      }
    }
  }

  /** The eight neighbour slots of one expansion, filled in direction order.
      Slot d holds a node exactly when neighbour d was on the map, not water
      and unvisited when the expansion began: the eight neighbours are
      distinct, so marking one never blocks another. */
  method Expand(terrain: seq<seq<int>>, w: nat, h: nat, start: Cell, goal: Cell,
                score: (seq<Node>, nat, Cell) -> Positive,
                tree: seq<Node>, heap: seq<Node>, visited: seq<seq<bool>>, ghost k: nat, ghost expansions: int)
    returns (tree': seq<Node>, heap': seq<Node>, visited': seq<seq<bool>>)
    requires IsRect(terrain, w, h) && |tree| == 9 * k + 1 && InBounds(tree[9 * k].cell, w, h)
    requires Consistent(terrain, w, h, start, tree, heap, visited)
    requires Complete(terrain, w, h, tree, heap, visited)
    requires HeadsAvoid(tree, goal, |tree|)
    requires expansions + |heap| + Unvisited(visited) == w * h
    ensures |tree'| == 9 * (k + 1) && tree'[..|tree|] == tree
    ensures Consistent(terrain, w, h, start, tree', heap', visited')
    ensures Complete(terrain, w, h, tree', heap', visited')
    ensures HeadsAvoid(tree', goal, |tree'|)
    ensures expansions + |heap'| + Unvisited(visited') == w * h
    ensures forall d :: 1 <= d <= 8 ==>
      (tree'[9 * k + d] != Phantom <==> Open(terrain, w, h, visited, Neighbour(tree[9 * k].cell, d)))
  {
    var e := |tree| - 1;
    assert e == 9 * k;
    ModNine(k, 0);
    var cur := tree[e];
    tree', heap', visited' := tree, heap, visited;
    var d := 1;
    while d <= 8
      invariant 1 <= d <= 9 && |tree'| == e + d && tree'[..|tree|] == tree
      invariant Consistent(terrain, w, h, start, tree', heap', visited')
      invariant Complete(terrain, w, h, tree', heap', visited')
      invariant HeadsAvoid(tree', goal, |tree'|)
      invariant expansions + |heap'| + Unvisited(visited') == w * h
      invariant forall i :: e < i < |tree'| ==> SlotMatches(terrain, w, h, visited, cur.cell, tree'[i], i - e)
      invariant forall d' :: d <= d' <= 8 ==>
        (Open(terrain, w, h, visited', Neighbour(cur.cell, d')) <==> Open(terrain, w, h, visited, Neighbour(cur.cell, d')))
      decreases 9 - d
    {
      SlotOfBlock(e, k, d, |tree'|);
      assert tree'[e] == cur;
      var t, hp, v := FillSlot(terrain, w, h, start, score, tree', heap', visited', e, k, d);
      HeadsUnchanged(tree', t[|tree'|], goal);
      SlotStep(terrain, w, h, visited, visited', v, cur.cell, tree', t, e, d);
      tree', heap', visited' := t, hp, v;
      d := d + 1;
    }
    forall d | 1 <= d <= 8
      ensures tree'[9 * k + d] != Phantom <==> Open(terrain, w, h, visited, Neighbour(tree[9 * k].cell, d))
    {
      assert SlotMatches(terrain, w, h, visited, cur.cell, tree'[e + d], e + d - e);
    }
  }

  /** No head among the first n slots stands on the destination. */
  ghost predicate HeadsAvoid(tree: seq<Node>, goal: Cell, n: int) {
    forall i :: 0 <= i < n && i < |tree| && i % 9 == 0 ==> tree[i].cell != goal
  }

  /** Appending the root of the heap as the next head, with its cell marked,
      keeps the tree consistent and complete and lowers the potential by
      one: the first pop marks the start, a later one takes an entry whose
      cell is already marked. */
  lemma PopHead(terrain: seq<seq<int>>, w: nat, h: nat, start: Cell,
                tree: seq<Node>, heap: seq<Node>, visited: seq<seq<bool>>, k: nat, rest: seq<Node>)
    requires IsRect(terrain, w, h) && InBounds(start, w, h)
    requires |tree| == 9 * k && |heap| > 0
    requires k == 0 ==> heap == [Root(start)] && visited == Cleared(w, h)
    requires Consistent(terrain, w, h, start, tree, heap, visited)
    requires Complete(terrain, w, h, tree, heap, visited)
    requires k + |heap| + Unvisited(visited) == w * h + (if k == 0 then 1 else 0)
    requires |rest| == |heap| - 1 && multiset(rest) == multiset(heap[1..])
    ensures InBounds(heap[0].cell, w, h) && IsRect(visited, w, h)
    ensures Consistent(terrain, w, h, start, tree + [heap[0]], rest, Mark(visited, heap[0].cell))
    ensures Complete(terrain, w, h, tree + [heap[0]], rest, Mark(visited, heap[0].cell))
    ensures k + 1 + |rest| + Unvisited(Mark(visited, heap[0].cell)) == w * h
  {
    var cur := heap[0];
    if k == 0 {
      assert cur == Root(start) && rest == [];
      MarkUnvisited(visited, start);
      FirstHead(terrain, w, h, start, rest, visited);
      CompleteFirst(terrain, w, h, start, heap, visited);
      assert tree + [cur] == [Root(start)];
    } else {
      forall n | n in rest
        ensures n in heap
      {
        assert n in multiset(heap[1..]);
      }
      SlotOfBlock(|tree|, k, 0, |tree|);
      NextHead(terrain, w, h, start, tree, heap, visited, cur, rest);
      CompleteNext(terrain, w, h, tree, heap, visited, rest);
    }
  }

  /** One turn of the search loop: take the root of the heap, append it as
      the next head and mark its cell; stop if it stands on the destination,
      otherwise fill its eight neighbour slots. */
  method Step(terrain: seq<seq<int>>, w: nat, h: nat, start: Cell, goal: Cell,
              score: (seq<Node>, nat, Cell) -> Positive, how: Extraction,
              tree: seq<Node>, heap: seq<Node>, visited: seq<seq<bool>>, ghost k: nat)
    returns (tree': seq<Node>, heap': seq<Node>, visited': seq<seq<bool>>, found: bool)
    requires IsRect(terrain, w, h) && InBounds(start, w, h)
    requires |tree| == 9 * k && |heap| > 0
    requires k == 0 ==> heap == [Root(start)] && visited == Cleared(w, h)
    requires Consistent(terrain, w, h, start, tree, heap, visited)
    requires Complete(terrain, w, h, tree, heap, visited)
    requires HeadsAvoid(tree, goal, |tree|)
    requires k + |heap| + Unvisited(visited) == w * h + (if k == 0 then 1 else 0)
    ensures Consistent(terrain, w, h, start, tree', heap', visited')
    ensures Complete(terrain, w, h, tree', heap', visited')
    ensures k + 1 + |heap'| + Unvisited(visited') == w * h
    ensures found ==> |tree'| == 9 * k + 1 && tree'[9 * k].cell == goal && HeadsAvoid(tree', goal, 9 * k)
    ensures !found ==> |tree'| == 9 * (k + 1) && HeadsAvoid(tree', goal, |tree'|)
  {
    var cur, rest := TakeMin(heap, how);
    PopHead(terrain, w, h, start, tree, heap, visited, k, rest);
    heap' := rest;
    tree' := tree + [cur];
    visited' := Mark(visited, cur.cell);
    found := cur.cell == goal;
    if !found {
      assert HeadsAvoid(tree', goal, |tree'|);
      tree', heap', visited' := Expand(terrain, w, h, start, goal, score, tree', heap', visited', k, k + 1);
    }
  }

  /** In a tree of this shape the walk from any head ends at the start,
      one king move per step. */
  lemma HeadWalkEndsAtStart(terrain: seq<seq<int>>, w: nat, h: nat, start: Cell, tree: seq<Node>, last: nat)
    requires TreeOk(terrain, w, h, start, tree) && last < |tree| && last % 9 == 0
    ensures WellLinked(tree)
    ensures var path := PathFrom(tree, last);
      && path[0] == tree[last].cell && path[|path| - 1] == start
      && forall k :: 0 <= k < |path| - 1 ==> Adjacent(path[k], path[k + 1])
  {
    TreeIsWellLinked(terrain, w, h, start, tree);
    if last > 0 {
      assert HeadOk(terrain, w, h, tree, last);
    }
    WalkEndsAtRoot(tree, last);
    assert tree[0] == Root(start);
  }

  /** In a tree of this shape every cell on the walk from a head, the start
      excepted, was generated by the search: on the map and not water. */
  lemma {:induction false} HeadWalkIsDry(terrain: seq<seq<int>>, w: nat, h: nat, start: Cell, tree: seq<Node>, i: nat)
    requires TreeOk(terrain, w, h, start, tree) && WellLinked(tree) && i < |tree| && i % 9 == 0
    ensures var path := PathFrom(tree, i);
      forall k :: 0 <= k < |path| - 1 ==> InBounds(path[k], w, h) && Dry(terrain, path[k])
    decreases i
  {
    if i > 0 {
      assert HeadOk(terrain, w, h, tree, i);
      var p := tree[i].parent.value;
      HeadWalkIsDry(terrain, w, h, start, tree, p);
      assert PathFrom(tree, i) == [tree[i].cell] + PathFrom(tree, p);
    }
  }

  /** Every dry on-map neighbour of a head cell is itself a head cell. */
  ghost predicate Closed(terrain: seq<seq<int>>, w: nat, h: nat, tree: seq<Node>) {
    forall c, n :: HeadCell(tree, c) && Adjacent(c, n) && InBounds(n, w, h) && Dry(terrain, n) ==> HeadCell(tree, n)
  }

  /** A walk of king moves leaving the start over on-map, non-water cells. */
  ghost predicate DryWalk(terrain: seq<seq<int>>, w: nat, h: nat, start: Cell, p: seq<Cell>) {
    && |p| > 0 && p[0] == start
    && (forall k :: 0 <= k < |p| - 1 ==> Adjacent(p[k], p[k + 1]))
    && (forall k :: 0 < k < |p| ==> InBounds(p[k], w, h) && Dry(terrain, p[k]))
  }

  lemma HeadBlock(i: nat)
    requires i % 9 == 0
    ensures i == 9 * (i / 9)
  {
  }

  /** Once the heap is empty, neighbour d of head 9a, when on the map and
      not water, is a head: its slot holds either the node generated for
      it, since popped, or a phantom for a cell the tree already held. */
  lemma NeighbourIsHead(terrain: seq<seq<int>>, w: nat, h: nat, start: Cell,
                        tree: seq<Node>, heap: seq<Node>, visited: seq<seq<bool>>, m: nat, a: nat, d: int)
    requires Consistent(terrain, w, h, start, tree, heap, visited)
    requires Complete(terrain, w, h, tree, heap, visited)
    requires |heap| == 0 && |tree| == 9 * m && a < m && 1 <= d <= 8
    requires InBounds(Neighbour(tree[9 * a].cell, d), w, h) && Dry(terrain, Neighbour(tree[9 * a].cell, d))
    ensures HeadCell(tree, Neighbour(tree[9 * a].cell, d))
  {
    var nb := Neighbour(tree[9 * a].cell, d);
    var s := 9 * a + d;
    SlotOfBlock(9 * a, a, d, s);
    assert SlotOk(terrain, w, h, tree, s);
    var j := s;
    if tree[s] == Phantom {
      assert PhantomSlot(tree, s);
      assert Blocked(terrain, w, h, tree, s);
      j :| 0 <= j < |tree| && tree[j].cell == nb;
    }
    if j % 9 != 0 {
      assert SlotOk(terrain, w, h, tree, j);
      assert Generated(tree, j);
      var i :| 0 < i < |tree| && i % 9 == 0 && tree[i] == tree[j];
    }
  }

  /** An empty heap leaves the heads closed under dry king moves. */
  lemma ExhaustedIsClosed(terrain: seq<seq<int>>, w: nat, h: nat, start: Cell,
                          tree: seq<Node>, heap: seq<Node>, visited: seq<seq<bool>>, m: nat)
    requires Consistent(terrain, w, h, start, tree, heap, visited)
    requires Complete(terrain, w, h, tree, heap, visited)
    requires |heap| == 0 && |tree| == 9 * m
    ensures Closed(terrain, w, h, tree)
  {
    forall c, n | HeadCell(tree, c) && Adjacent(c, n) && InBounds(n, w, h) && Dry(terrain, n)
      ensures HeadCell(tree, n)
    {
      var i :| 0 <= i < |tree| && i % 9 == 0 && tree[i].cell == c;
      HeadBlock(i);
      NeighboursAreTheKingMoves(c, n);
      var d :| 1 <= d <= 8 && Neighbour(c, d) == n;
      NeighbourIsHead(terrain, w, h, start, tree, heap, visited, m, i / 9, d);
    }
  }

  /** Heads closed under dry king moves, the start among them, hold every
      cell of every dry walk from the start. */
  lemma {:induction false} WalkStaysInHeads(terrain: seq<seq<int>>, w: nat, h: nat, start: Cell,
                                            tree: seq<Node>, p: seq<Cell>, n: nat)
    requires Closed(terrain, w, h, tree) && HeadCell(tree, start)
    requires DryWalk(terrain, w, h, start, p) && n < |p|
    ensures HeadCell(tree, p[n])
    decreases n
  {
    if n > 0 {
      WalkStaysInHeads(terrain, w, h, start, tree, p, n - 1);
    }
  }

  /** A search that empties the heap without popping the destination has
      shown that no dry walk from the start reaches it. */
  lemma ExhaustedMissesGoal(terrain: seq<seq<int>>, w: nat, h: nat, start: Cell, goal: Cell,
                            tree: seq<Node>, heap: seq<Node>, visited: seq<seq<bool>>, m: nat)
    requires Consistent(terrain, w, h, start, tree, heap, visited)
    requires Complete(terrain, w, h, tree, heap, visited)
    requires |heap| == 0 && |tree| == 9 * m && m >= 1 && HeadsAvoid(tree, goal, |tree|)
    ensures forall p :: DryWalk(terrain, w, h, start, p) ==> p[|p| - 1] != goal
  {
    ExhaustedIsClosed(terrain, w, h, start, tree, heap, visited, m);
    assert HeadCell(tree, start) by {
      assert tree[0].cell == start;
    }
    forall p | DryWalk(terrain, w, h, start, p)
      ensures p[|p| - 1] != goal
    {
      WalkStaysInHeads(terrain, w, h, start, tree, p, |p| - 1);
    }
  }

  /** What the search state gives once the loop stops, by either exit. */
  lemma SearchOutcome(terrain: seq<seq<int>>, w: nat, h: nat, start: Cell, goal: Cell,
                      tree: seq<Node>, heap: seq<Node>, visited: seq<seq<bool>>, reached: bool, expansions: nat)
    requires InBounds(start, w, h)
    requires Consistent(terrain, w, h, start, tree, heap, visited)
    requires Complete(terrain, w, h, tree, heap, visited)
    requires 1 <= expansions && expansions + |heap| + Unvisited(visited) == w * h
    requires reached ==> |tree| == 9 * expansions - 8 && tree[|tree| - 1].cell == goal && HeadsAvoid(tree, goal, |tree| - 1)
    requires !reached ==> |tree| == 9 * expansions && HeadsAvoid(tree, goal, |tree|) && |heap| == 0
    ensures |tree| > 0 && tree[0] == Root(start)
    ensures 1 <= expansions <= w * h
    ensures reached ==> |tree| == 9 * expansions - 8 && tree[|tree| - 1].cell == goal
    ensures !reached ==> |tree| == 9 * expansions
    ensures forall i :: 0 <= i < |tree| - 1 && i % 9 == 0 ==> tree[i].cell != goal
    ensures !reached ==> forall i :: 0 <= i < |tree| && i % 9 == 0 ==> tree[i].cell != goal
    ensures WellLinked(tree)
    ensures reached ==>
      var path := PathFrom(tree, |tree| - 1);
      && path[0] == goal && path[|path| - 1] == start
      && forall k :: 0 <= k < |path| - 1 ==> Adjacent(path[k], path[k + 1])
    ensures reached ==>
      var path := PathFrom(tree, |tree| - 1);
      forall k :: 0 <= k < |path| - 1 ==> InBounds(path[k], w, h) && Dry(terrain, path[k])
    ensures forall i :: 0 < i < |tree| && i % 9 != 0 ==> SlotOk(terrain, w, h, tree, i)
    ensures forall i, j :: Generated(tree, i) && Generated(tree, j) && i < j ==> tree[i].cell != tree[j].cell
    ensures forall i :: Generated(tree, i) ==> tree[i].cell != start
    ensures !reached ==> forall p :: DryWalk(terrain, w, h, start, p) ==> p[|p| - 1] != goal
  {
    if reached {
      var last := |tree| - 1;
      SlotOfBlock(last, expansions - 1, 0, last);
      HeadWalkEndsAtStart(terrain, w, h, start, tree, last);
      HeadWalkIsDry(terrain, w, h, start, tree, last);
    } else {
      TreeIsWellLinked(terrain, w, h, start, tree);
      ExhaustedMissesGoal(terrain, w, h, start, goal, tree, heap, visited, expansions);
    }
  }

  /** The search loop of `FindPath`: starting from the start cell alone in
      the heap, pop and expand until the destination is popped or the heap
      runs dry. */
  method Search(terrain: seq<seq<int>>, w: nat, h: nat, start: Cell, goal: Cell,
                score: (seq<Node>, nat, Cell) -> Positive, how: Extraction)
    returns (tree: seq<Node>, heap: seq<Node>, visited: seq<seq<bool>>, reached: bool, expansions: nat)
    requires IsRect(terrain, w, h) && InBounds(start, w, h)
    ensures Consistent(terrain, w, h, start, tree, heap, visited)
    ensures Complete(terrain, w, h, tree, heap, visited)
    ensures 1 <= expansions && expansions + |heap| + Unvisited(visited) == w * h
    ensures reached ==> |tree| == 9 * expansions - 8 && tree[|tree| - 1].cell == goal && HeadsAvoid(tree, goal, |tree| - 1)
    ensures !reached ==> |tree| == 9 * expansions && HeadsAvoid(tree, goal, |tree|) && |heap| == 0
  {
    heap := Push([], Root(start));
    visited := Cleared(w, h);
    UnvisitedCleared(w, h);
    CompleteAtStart(terrain, w, h, start);
    tree := [];
    reached := false;
    expansions := 0;
    assert heap == [Root(start)];
    while !Empty(heap)
      invariant |tree| == 9 * expansions && !reached
      invariant expansions == 0 ==> heap == [Root(start)] && visited == Cleared(w, h)
      invariant Consistent(terrain, w, h, start, tree, heap, visited)
      invariant Complete(terrain, w, h, tree, heap, visited)
      invariant HeadsAvoid(tree, goal, |tree|)
      invariant expansions + |heap| + Unvisited(visited) == w * h + (if expansions == 0 then 1 else 0)
      decreases w * h + 1 - expansions
    {
      tree, heap, visited, reached := Step(terrain, w, h, start, goal, score, how, tree, heap, visited, expansions);
      expansions := expansions + 1;
      if reached {
        break;
      }
    }
  }

  /** `FindPath`. The caller empties the heap and the tree first
      (`Form1_MouseClick`), so the search starts from an empty heap. Returns
      the tree, whether the destination was reached, and the number of
      expansions. */
  method FindPath(terrain: seq<seq<int>>, w: nat, h: nat, start: Cell, goal: Cell,
                  score: (seq<Node>, nat, Cell) -> Positive, how: Extraction)
    returns (tree: seq<Node>, reached: bool, expansions: nat)
    requires IsRect(terrain, w, h) && InBounds(start, w, h)
    ensures |tree| > 0 && tree[0] == Root(start)
    ensures 1 <= expansions <= w * h
    ensures reached ==> |tree| == 9 * expansions - 8 && tree[|tree| - 1].cell == goal
    ensures !reached ==> |tree| == 9 * expansions
    ensures forall i :: 0 <= i < |tree| - 1 && i % 9 == 0 ==> tree[i].cell != goal
    ensures !reached ==> forall i :: 0 <= i < |tree| && i % 9 == 0 ==> tree[i].cell != goal
    ensures WellLinked(tree)
    ensures reached ==>
      var path := PathFrom(tree, |tree| - 1);
      && path[0] == goal && path[|path| - 1] == start
      && forall k :: 0 <= k < |path| - 1 ==> Adjacent(path[k], path[k + 1])
    ensures reached ==>
      var path := PathFrom(tree, |tree| - 1);
      forall k :: 0 <= k < |path| - 1 ==> InBounds(path[k], w, h) && Dry(terrain, path[k])
    ensures forall i :: 0 < i < |tree| && i % 9 != 0 ==> SlotOk(terrain, w, h, tree, i)
    ensures forall i, j :: Generated(tree, i) && Generated(tree, j) && i < j ==> tree[i].cell != tree[j].cell
    ensures forall i :: Generated(tree, i) ==> tree[i].cell != start
    ensures !reached ==> forall p :: DryWalk(terrain, w, h, start, p) ==> p[|p| - 1] != goal
  {
    var heap, visited;
    tree, heap, visited, reached, expansions := Search(terrain, w, h, start, goal, score, how);
    SearchOutcome(terrain, w, h, start, goal, tree, heap, visited, reached, expansions);
  }
}
