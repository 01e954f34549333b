/**
 * Cells and rectangular grids. The program keeps its fields in C# arrays
 * `T[mapWidth, mapHeight]` indexed `[x, y]`; here a grid is a sequence of
 * `w` columns, each of `h` entries, indexed `g[x][y]`.
 */
module Grid {

  /** An integer coordinate pair (x, y). */
  datatype Cell = Cell(x: int, y: int)

  /** `g` has exactly `w` columns of `h` entries each. */
  ghost predicate IsRect<T>(g: seq<seq<T>>, w: nat, h: nat) {
    |g| == w && forall x :: 0 <= x < w ==> |g[x]| == h
  }

  predicate InBounds(c: Cell, w: int, h: int) {
    0 <= c.x < w && 0 <= c.y < h
  }

  function At<T>(g: seq<seq<T>>, c: Cell): T
    requires 0 <= c.x < |g| && 0 <= c.y < |g[c.x]|
  {
    g[c.x][c.y]
  }

  /** A freshly allocated `bool[w, h]`: every entry false. */
  function Cleared(w: nat, h: nat): (g: seq<seq<bool>>)
    ensures IsRect(g, w, h)
    ensures forall x, y :: 0 <= x < w && 0 <= y < h ==> !g[x][y]
  {
    seq(w, _ => seq(h, _ => false))
  }

  /** `visited[c.x, c.y] = true`. */
  function Mark(g: seq<seq<bool>>, c: Cell): (r: seq<seq<bool>>)
    requires 0 <= c.x < |g| && 0 <= c.y < |g[c.x]|
    ensures |r| == |g| && r[c.x] == g[c.x][c.y := true]
    ensures forall x :: 0 <= x < |g| && x != c.x ==> r[x] == g[x]
  {
    g[c.x := g[c.x][c.y := true]]
  }

  /** Number of false entries of one column. */
  function FalsesIn(col: seq<bool>): (n: nat)
    ensures n <= |col|
  {
    if |col| == 0 then 0 else (if col[0] then 0 else 1) + FalsesIn(col[1..])
  }

  /** Number of false entries of a grid: the cells not yet visited. */
  function Unvisited(g: seq<seq<bool>>): nat {
    if |g| == 0 then 0 else FalsesIn(g[0]) + Unvisited(g[1..])
  }

  lemma {:induction false} FalsesInSet(col: seq<bool>, y: nat)
    requires y < |col| && !col[y]
    ensures FalsesIn(col[y := true]) == FalsesIn(col) - 1
    decreases y
  {
    if y > 0 {
      assert col[y := true][1..] == col[1..][y - 1 := true];
      FalsesInSet(col[1..], y - 1);
    } else {
      assert col[y := true][1..] == col[1..];
    }
  }

  lemma {:induction false} UnvisitedSetColumn(g: seq<seq<bool>>, x: nat, col: seq<bool>)
    requires x < |g|
    ensures Unvisited(g[x := col]) == Unvisited(g) - FalsesIn(g[x]) + FalsesIn(col)
    decreases x
  {
    if x > 0 {
      assert g[x := col][1..] == g[1..][x - 1 := col];
      UnvisitedSetColumn(g[1..], x - 1, col);
    } else {
      assert g[x := col][1..] == g[1..];
    }
  }

  /** Marking an unvisited cell lowers the unvisited count by exactly one;
      marking a visited cell changes nothing. */
  lemma MarkUnvisited(g: seq<seq<bool>>, c: Cell)
    requires 0 <= c.x < |g| && 0 <= c.y < |g[c.x]|
    ensures !g[c.x][c.y] ==> Unvisited(Mark(g, c)) == Unvisited(g) - 1
    ensures g[c.x][c.y] ==> Mark(g, c) == g
  {
    UnvisitedSetColumn(g, c.x, g[c.x][c.y := true]);
    if !g[c.x][c.y] {
      FalsesInSet(g[c.x], c.y);
    } else {
      assert g[c.x][c.y := true] == g[c.x];
    }
  }

  lemma {:induction false} FalsesInCleared(h: nat)
    ensures FalsesIn(seq(h, _ => false)) == h
  {
    if h > 0 {
      assert seq(h, _ => false)[1..] == seq(h - 1, _ => false);
      FalsesInCleared(h - 1);
    }
  }

  /** A fresh visited grid counts all `w * h` cells as unvisited. */
  lemma {:induction false} UnvisitedCleared(w: nat, h: nat)
    ensures Unvisited(Cleared(w, h)) == w * h
  {
    if w > 0 {
      assert Cleared(w, h)[1..] == Cleared(w - 1, h);
      FalsesInCleared(h);
      UnvisitedCleared(w - 1, h);
    }
  }
}
