# Terrain, roads and path search of the map form, in Dafny

This project models the computational core of `Form1.cs`, a WinForms program.
The program draws a random tile map, lays roads over it and searches a path
for the player across it. The model covers these parts:

- **Smoothing** (`smoothing.dfy`): `SmoothTerrain` and `SmoothRoads`. Every
  cell is blended with the truncated average of its admitted neighbours,
  reading the previous pass through a fresh buffer. The program tests
  `x - 1 > 0` and `y - 1 > 0`, so column 0 and row 0 never serve as
  neighbours; the model keeps that. C#'s truncating `/` is `CsDiv`.
- **Roads** (`roads.dfy`): the threshold loop of `GenerateRoad`, with the
  random road field given as an input.
- **Terrain** (`terrain.dfy`): the eight value bands and `GetTileValue`. Costs
  are exact reals.
- **Heap** (`heap.dfy`): the list-backed binary heap (`Insert`,
  `GetMinNode`, `ExtractMin`, `Update`, `Empty`, `Swap`, `Clear`). It is
  generic over the element type, with a key function. `Update` terminates by
  an index-weighted potential, because every swap moves the larger key to a
  higher index.
- **Search tree** (`searchtree.dfy`): class `Node` as a datatype in an index
  arena. A parent reference becomes the index of the parent. It also holds
  `GetCurrentPathValue` and the parent walk `OnTick` uses to draw the path.
- **Search** (`pathfinder.dfy`): `FindPath`. The node score is a function
  parameter with positive values. Only the search's structure is stated, so
  the statements hold for every score. The search runs with either
  extraction (see Findings). A found path is a walk of king moves over
  on-map, non-water cells. A search that stops without the destination has
  shown that no such walk from the start reaches it.

Grids are `seq<seq<T>>` indexed `[x][y]` like the C# arrays `T[w, h]`.
`grid.dfy` holds cells, rectangular grids and the count of unvisited cells.
`wrappers.dfy` holds `Option`.

Three behaviours of the code a reader might not expect:

- A cell is a road only when its smoothed value is exactly 1. A value of 2
  leaves the fresh `false`.
- A value-1 cell is suppressed only when all four tests `x - 1 > 0`,
  `x + 1 < w`, `y - 1 > 0` and `y + 1 < h` pass and those four neighbours
  are 0.
- `GetTileValue`'s first test is `v < 25` with no lower bound. A negative
  value is therefore Swamp, and only values of 200 and more give -1.

## Model

| member | source | states |
|---|---|---|
| Grid.Cleared | Form1.cs:482 | a fresh `bool[w, h]` is w by h and every entry is false |
| Grid.UnvisitedCleared | Form1.cs:482 | a fresh visited grid has exactly w·h unvisited cells |
| Grid.MarkUnvisited | Form1.cs:509-515 | marking an unvisited cell lowers the unvisited count by exactly one; marking a visited cell changes nothing |
| Smoothing.Admitted | Form1.cs:153-202 | at most eight neighbours are added, and at least one when the grid is 3 or more cells wide or high |
| Smoothing.LeftBlockExactly | Form1.cs:156-172 | the `x - 1 > 0` block adds exactly the admitted neighbours in column x - 1, each once |
| Smoothing.RightBlockExactly | Form1.cs:174-190 | the `x + 1 < mapWidth` block adds exactly the admitted neighbours in column x + 1, each once |
| Smoothing.ColumnBlockExactly | Form1.cs:192-202 | the same-column tests add exactly the admitted neighbours in column x, each once |
| Smoothing.AdmittedExactly | Form1.cs:153-202 | the neighbour list holds exactly the cells one king move away, inside the right and lower edges, and not in column 0 or row 0 when to the left or above; each occurs once |
| Smoothing.AdmittedInside | Form1.cs:156-202 | no neighbour the pass reads lies off the grid |
| Smoothing.SmoothableExactly | Form1.cs:204 | the division by `adjacentSections` is defined at every cell exactly when the grid is empty, at least 3 wide or at least 3 high; a non-empty grid at most 2 by 2 divides by zero at its corner |
| Smoothing.CsDiv | Form1.cs:204 | C#'s integer `/`: a non-negative dividend divides as usual, and the quotient never has the opposite sign of the dividend |
| Smoothing.CsDivIsOdd | Form1.cs:204 | the division truncates toward zero: negating the dividend negates the quotient, so -1 / 2 is 0 where Dafny's `/` gives -1 |
| Smoothing.SmoothCell | Form1.cs:153-204 | the new value of a cell with a non-negative value and non-negative admitted neighbours is non-negative |
| Smoothing.SmoothPass | Form1.cs:147-210 | one pass gives a grid of the same shape whose every cell is that cell's blend over the previous grid |
| Smoothing.PassColumn | Form1.cs:151-205 | a column of the fresh buffer has h cells, each the cell's blend over the previous grid |
| Smoothing.Smooth | Form1.cs:143-145 | a non-positive pass count leaves the grid unchanged (`SmoothTerrain(0)` is the identity) |
| Smoothing.SmoothTerrain | Form1.cs:139-212 | the map keeps its shape, no passes leave it unchanged, and n passes are one halving pass followed by n - 1 more |
| Smoothing.SmoothRoads | Form1.cs:214-287 | the road field keeps its shape, no passes leave it unchanged, and n passes are one quartering pass followed by n - 1 more |
| Smoothing.LeftTotals | Form1.cs:156-172 | the running total and count of the left block are the sum and size of its neighbour list |
| Smoothing.RightTotals | Form1.cs:174-190 | the running total and count of the right block are the sum and size of its neighbour list |
| Smoothing.ColumnTotals | Form1.cs:192-202 | the running total and count of the same-column tests are the sum and size of their neighbour list |
| Smoothing.NeighbourTotals | Form1.cs:153-202 | `sectionsTotal` and `adjacentSections` are the sum over, and the number of, the admitted neighbours |
| Smoothing.SmoothColumn | Form1.cs:151-205 | the inner loop fills column x of the fresh buffer exactly |
| Smoothing.SmoothOnce | Form1.cs:147-206 | the fresh buffer after both loops is one pass over the previous grid |
| Smoothing.SmoothInPlace | Form1.cs:139-212 | the pass loop with copy-back computes `passes` passes |
| Smoothing.BlendWithin | Form1.cs:204 | for 0 <= lo, a cell in [lo, hi] blended with such an average and halved stays in [lo, hi] |
| Smoothing.CellStaysWithin | Form1.cs:153-204 | on a non-negative grid, a terrain cell's new value lies within the bounds of the previous grid |
| Smoothing.PassStaysWithin | Form1.cs:147-210 | one terrain pass keeps a non-negative grid within [lo, hi] |
| Smoothing.SmoothTerrainStaysWithin | Form1.cs:139-212 | any number of terrain passes keeps a non-negative grid within [lo, hi] |
| Smoothing.ConstantIsFixedPoint | Form1.cs:147-210 | a constant grid is a fixed point of a terrain pass |
| Smoothing.AdmittedSumAgree | Form1.cs:153-202 | grids that agree on a cell's admitted neighbours give the same neighbour total |
| Smoothing.PassIsLocal | Form1.cs:147-210 | a new cell depends only on the previous values of the cell and of its admitted neighbours |
| Smoothing.RoadPassRange | Form1.cs:214-287 | one road pass over values in [0, 5] (the draws of `Next(6)`) yields values in [0, 2] |
| Roads.RoadAt | Form1.cs:124-134 | the branch cascade makes a cell a road exactly when its smoothed value is 1, its terrain is not water and it is not isolated, so the second water test decides nothing |
| Roads.Threshold | Form1.cs:120-136 | the threshold loop yields a w by h grid whose every cell is the branch cascade's verdict |
| Roads.EdgeOneIsRoad | Form1.cs:130 | a value-1, non-water cell on the border or in column 1 or row 1 is always a road |
| Roads.GenerateRoad | Form1.cs:107-137 | no water cell is a road, and every road cell has smoothed value exactly 1 |
| Roads.GenerateMap | Form1.cs:96-105 | the generated map is w by h |
| Roads.GenerateMapInRange | Form1.cs:96-105 | draws from [0, 200) give a map within [0, 200) for any number of passes |
| Terrain.BandOf | Form1.cs:409-473 | the cascade of tests gives no band exactly from 200 upwards, Swamp for negative values, and otherwise the band whose rank r has v in [25·r, 25·r + 25) |
| Terrain.TileValue | Form1.cs:404-477 | water costs `int.MaxValue`, values of 200 or more cost -1, every other value costs in (0, 175] |
| Terrain.BandsPartition | Form1.cs:409-473 | the bands split [0, 200) into eight half-open intervals of width 25 in rank order; negative values are Swamp; water is exactly [50, 75) |
| Terrain.TileValueByBand | Form1.cs:404-477 | the cost is the band's base cost, times its road factor on a road; -1 without a band; `int.MaxValue` for water |
| Terrain.RoadNeverDearer | Form1.cs:409-473 | a road makes a passable tile strictly cheaper, by exactly 0.75 on Swamp, Rough, Sand and Lava and 0.65 on Grass, Dirt and Snow |
| Heap.Swap | Form1.cs:790-795 | the two slots trade elements, every other slot is unchanged, and the multiset is kept |
| Heap.DownChild | Form1.cs:729-761 | the child chosen is smaller than the slot and no larger than its sibling; none is chosen exactly when both children are at least the slot |
| Heap.Update | Form1.cs:725-774 | `Update` permutes the list and never raises the key at the root |
| Heap.SiftUpRestores | Form1.cs:725-770 | from a heap broken only above slot i, `Update(i)` restores heap order |
| Heap.SiftDownRestores | Form1.cs:725-770 | from a heap broken only below slot i, `Update(i)` restores heap order |
| Heap.HeapRootIsMin | Form1.cs:705-711 | in a heap the root's key is at most every key |
| Heap.AppendSiftsUp | Form1.cs:699-703 | appending to a heap and updating the new last slot gives a heap |
| Heap.Insert | Form1.cs:699-703 | the size grows by one, the multiset gains exactly the node, and heap order is kept |
| Heap.Empty | Form1.cs:776-781 | true exactly when the heap holds no node |
| Heap.Clear | Form1.cs:797-800 | the heap is empty afterwards |
| Heap.ClearThenInsert | Form1.cs:797-800 | a cleared heap is a heap, and inserting into it gives exactly the one node |
| Heap.GetMinNode | Form1.cs:705-711 | null exactly on an empty heap, otherwise the root `nodes.ElementAt(0)` |
| Heap.GetMinNodeIsMin | Form1.cs:705-711 | on a heap the returned element has a minimum key |
| Heap.RemoveFirst | Form1.cs:719 | `List.Remove` drops the first occurrence of a present element, keeps the others in order, and leaves a list without the element unchanged |
| Heap.ExtractMin | Form1.cs:713-723 | no-op on an empty heap; otherwise exactly the root is removed, and on a heap the new root is a minimum of the rest |
| Heap.ExtractedRootIsMin | Form1.cs:718-722 | dropping a heap's root and updating slot 0 leaves a minimum at the root |
| Heap.ExtractMinLosesHeapOrder | Form1.cs:713-723 | on the heap [1, 5, 2, 6, 7, 3, 4] one extraction gives a non-heap, and three leave 5 at the root while 4 remains |
| Heap.ReplacedRootSiftsDown | Form1.cs:718-722 | moving the last slot to the root of a heap, dropping the last slot and updating slot 0 gives a heap |
| Heap.ExtractMinIntended | Form1.cs:713-723 | the intended extraction removes exactly the root and keeps heap order |
| SearchTree.Root | Form1.cs:485-486 | the root stands on the start cell, has no parent and is not a phantom |
| SearchTree.PathFrom | Form1.cs:79-89 | the walk along parent links from node i starts at i's cell and has at most i + 1 cells |
| SearchTree.WalkEndsAtRoot | Form1.cs:79-89 | in a well-linked tree the walk ends at the first node's cell, one king move per step |
| SearchTree.PathValue | Form1.cs:624-638 | when nodes 0..i all have non-negative values, the path value from node i is at least the number of nodes on the walk |
| SearchTree.GetCurrentPathValue | Form1.cs:624-638 | the loop returns the sum over the walk of each node's value plus one |
| Pathfinder.Pop | Form1.cs:493 | either extraction removes exactly the root |
| Pathfinder.TakeMin | Form1.cs:492-493 | the node taken is the root, and what remains is exactly the rest of the heap as a multiset |
| Pathfinder.Push | Form1.cs:513 | the heap grows by exactly the new node: its multiset gains that node and loses nothing |
| Pathfinder.Neighbour | Form1.cs:509-611 | each of the eight directions gives a cell one king move away |
| Pathfinder.NeighboursAreTheKingMoves | Form1.cs:509-611 | the eight directions reach eight different cells, and every king move is one of them |
| Pathfinder.StepInside | Form1.cs:509-600 | for a cell on the map, the per-direction bound test passes exactly when the neighbour is on the map |
| Pathfinder.FirstHead | Form1.cs:485-494 | popping the root first leaves a consistent search state |
| Pathfinder.NextHead | Form1.cs:492-494 | popping a later heap entry appends it as the next head and keeps the state consistent; its cell was already marked |
| Pathfinder.AddPhantom | Form1.cs:517-520 | appending a phantom for a rejected neighbour keeps the state consistent |
| Pathfinder.AddChild | Form1.cs:509-520 | generating, inserting and marking an admitted neighbour keeps the state consistent |
| Pathfinder.TreeIsWellLinked | Form1.cs:499-611 | the tree the search builds is well linked |
| Pathfinder.FillSlot | Form1.cs:509-520 | one neighbour slot holds a node exactly when the neighbour is on the map, not water and unmarked; only that cell's mark changes, and the state stays consistent and complete |
| Pathfinder.SlotStep | Form1.cs:509-611 | filling slot d keeps the earlier slots matched against the marks at the start of the expansion and leaves the later neighbours as open as they were |
| Pathfinder.Expand | Form1.cs:499-611 | one expansion appends exactly eight slots; slot d holds a node exactly when neighbour d was on the map, not water and unmarked when the expansion began. The state stays consistent and complete, no head lands on the destination, and expansions + heap size + unvisited cells stay at w·h |
| Pathfinder.CompleteAtStart | Form1.cs:482-488 | before the first pop nothing is marked and the heap holds only the root, so the completeness invariant holds |
| Pathfinder.CompleteFirst | Form1.cs:492-494 | popping the root and marking the start keeps every marked cell held by a slot |
| Pathfinder.CompleteNext | Form1.cs:492-494 | a later pop moves the root of the heap into the tree, so every generated node is still in the heap or popped |
| Pathfinder.CompletePhantom | Form1.cs:517-520 | a phantom is appended only for a neighbour off the map, in water or already marked, hence already held by the tree |
| Pathfinder.CompleteChild | Form1.cs:509-520 | a generated neighbour enters both the tree and the heap, and its mark is matched by its slot |
| Pathfinder.PopHead | Form1.cs:492-494 | appending the root of the heap as the next head and marking it keeps the state consistent and complete and lowers the potential by one |
| Pathfinder.Step | Form1.cs:490-611 | one turn either stops on the destination or completes a block of nine, keeping the state consistent and complete and the count |
| Pathfinder.HeadWalkEndsAtStart | Form1.cs:79-89 | from any head, the parent walk reaches the start cell one king move per step |
| Pathfinder.HeadWalkIsDry | Form1.cs:499-611 | every cell on the parent walk from a head, the start excepted, is on the map and not water |
| Pathfinder.NeighbourIsHead | Form1.cs:490-611 | once the heap is empty, every on-map, non-water neighbour of a head is a head: its slot holds the node generated for it, since popped, or a phantom for a cell the tree already held |
| Pathfinder.ExhaustedIsClosed | Form1.cs:490-611 | an empty heap leaves the set of head cells closed under king moves onto on-map, non-water cells |
| Pathfinder.WalkStaysInHeads | Form1.cs:490-611 | when the heads are closed that way and include the start, every cell of every walk of king moves from the start over on-map, non-water cells is a head |
| Pathfinder.ExhaustedMissesGoal | Form1.cs:490-497 | a search that empties the heap without popping the destination has shown that no such walk from the start reaches it |
| Pathfinder.Search | Form1.cs:485-611 | the loop stops with the state consistent and complete, either on the destination or with the heap empty and no head on the destination |
| Pathfinder.SearchOutcome | Form1.cs:490-497 | either exit of the loop gives `FindPath`'s guarantees, the unreachability of the destination included |
| Pathfinder.FindPath | Form1.cs:480-622 | the search runs at most w·h expansions. On reaching the destination, the last node stands on it and its parent walk reaches the start by king moves, every cell before the start on the map and not water. Every generated node is a non-water neighbour of its head, on the map. No cell is generated twice or equals the start. When the destination is not reached, no walk of king moves from the start over on-map, non-water cells ends on it |

## Left out

- Drawing, the timer, the buttons, the track bar and the mouse's
  pixel-to-cell conversion are GDI and UI code with no logic to state.
- `System.Random`: the drawn fields are inputs (`noise` in `Roads`).
- The node score: `1` or `√2`, plus `GetCurrentPathValue`, plus the
  straight-line distance of `GetFuturePathValue`, plus `GetTileValue`, all in
  `float`. It is a positive-valued function parameter. Hence the exact
  visiting order and the optimality of the found path are not stated.
- Float rounding of `0.75f`, `0.65f` and of `int.MaxValue` converted to
  `float`. Costs are exact reals.
- 32-bit overflow: grid sums stay far below `int.MaxValue` for the program's
  60 by 60 map, so integers are unbounded.
- The `DivideByZeroException` that `SmoothTerrain` and `SmoothRoads` throw at
  Form1.cs:204 on a grid at most 2 wide and at most 2 high: the passes
  require `Smoothable`, which every call site's 60 by 60 map satisfies.
- `Heap.Insert`'s `IndexOf(Last())` is reference equality. Every inserted
  node is a fresh object, so it finds the new last slot, and the model
  updates that slot directly.
- The `~Heap` finalizer, `Heap.Print` and `Debug.WriteLine` write only to the
  debug output.
- Smoothing.PassStaysWithin: the bounds are stated for non-negative grids
  only, which is all the program produces.
- Smoothing.CellStaysWithin: likewise stated for non-negative grids only.
- Smoothing.SmoothTerrainStaysWithin: likewise stated for non-negative grids only.
- Smoothing.BlendWithin: requires 0 <= lo, like the bound statements it
  serves; the program's grids are non-negative.
- SearchTree.PathValue: the lower bound assumes non-negative values on all
  nodes 0..i rather than only on the nodes of the walk; every score the
  search produces is positive, so nothing is lost for the program's trees.
- Smoothing.ConstantIsFixedPoint: stated for the terrain pass (divisor 2)
  only. A road pass quarters the blend, so a constant grid is not fixed by it.
- Pathfinder.FindPath: the `value == 0` to `int.MaxValue` rewrite only ever
  changes phantoms, because generated scores are positive.

## Findings

| source | as written | input that shows it | evidently intended | confidence | as-written member | corrected member |
|---|---|---|---|---|---|---|
| Form1.cs:718-719 | `nodes[0] = nodes.Last(); nodes.Remove(nodes.Last());` removes the first occurrence of the last node, which is now slot 0. The net effect drops the root and shifts every slot left, so children change parents before `Update(0)` | keys [1, 5, 2, 6, 7, 3, 4]: one extraction gives [2, 3, 6, 7, 5, 4] (6 above 4). After three, 5 is at the root while 4 remains | move the last node to the root, drop the last slot, sift the root down; heap order is kept | not executed | Heap.ExtractMin, Heap.ExtractMinLosesHeapOrder | Heap.ExtractMinIntended |
