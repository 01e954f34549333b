/**
 * The smoothing passes of `SmoothTerrain` and `SmoothRoads`: every cell is
 * blended with the truncated average of its admitted neighbours, all cells
 * reading the previous pass's values (the program writes into a fresh
 * `tmpMap` and copies it back). Terrain halves the blend, roads quarter it.
 */
module Smoothing {
  import opened Grid

  /** A non-negative number divided by a positive one is non-negative. */
  lemma DivNonNegative(a: int, b: int)
    requires a >= 0 && b > 0
    ensures a / b >= 0
  {
  }

  /** C#'s `/` on `int` truncates toward zero; Dafny's `/` is Euclidean. */
  function CsDiv(a: int, b: int): (q: int)
    requires b > 0
    ensures a >= 0 ==> q == a / b
    ensures a < 0 ==> q == -((-a) / b)
    ensures a >= 0 ==> q >= 0
    ensures a <= 0 ==> q <= 0
  {
    if a >= 0 then DivNonNegative(a, b); a / b else DivNonNegative(-a, b); -((-a) / b)
  }

  /** Truncation is symmetric about zero: negating the dividend negates the
      quotient (Dafny's Euclidean `/` is not, for example -1 / 2 == -1). */
  lemma CsDivIsOdd(a: int, b: int)
    requires b > 0
    ensures CsDiv(-a, b) == -CsDiv(a, b)
    ensures -1 / 2 == -1 && CsDiv(-1, 2) == 0
  {
  }

  /** A neighbour the pass admits, described directly: one of the eight cells
      around (x, y), inside the right and lower edges, and, when it lies to the
      left or above, not in column 0 or row 0 (the program tests `x - 1 > 0`
      and `y - 1 > 0` where `>= 0` would admit them). */
  predicate IsAdmitted(w: int, h: int, x: int, y: int, c: Cell) {
    && c != Cell(x, y)
    && -1 <= c.x - x <= 1 && -1 <= c.y - y <= 1
    && c.x < w && c.y < h
    && (c.x < x ==> c.x > 0)
    && (c.y < y ==> c.y > 0)
  }

  /** No cell of `w` by `h` is left without admitted neighbours. */
  predicate Smoothable(w: int, h: int) {
    w <= 0 || h <= 0 || w >= 3 || h >= 3
  }

  /** The cell c when the program's bound test b holds, otherwise nothing. */
  function Opt(b: bool, c: Cell): seq<Cell> {
    if b then [c] else []
  }

  /** The neighbours the program adds inside `if ((x - 1) > 0)`. */
  function LeftBlock(h: int, x: int, y: int): seq<Cell> {
    if x - 1 > 0 then
      [Cell(x - 1, y)] + Opt(y - 1 > 0, Cell(x - 1, y - 1)) + Opt(y + 1 < h, Cell(x - 1, y + 1))
    else []
  }

  /** The neighbours the program adds inside `if ((x + 1) < mapWidth)`. */
  function RightBlock(w: int, h: int, x: int, y: int): seq<Cell> {
    if x + 1 < w then
      [Cell(x + 1, y)] + Opt(y - 1 > 0, Cell(x + 1, y - 1)) + Opt(y + 1 < h, Cell(x + 1, y + 1))
    else []
  }

  /** The neighbours the program adds in the same column. */
  function ColumnBlock(h: int, x: int, y: int): seq<Cell> {
    Opt(y - 1 > 0, Cell(x, y - 1)) + Opt(y + 1 < h, Cell(x, y + 1))
  }

  /** The admitted neighbours of (x, y), in the order the program adds them. */
  function Admitted(w: int, h: int, x: int, y: int): (ns: seq<Cell>)
    ensures InBounds(Cell(x, y), w, h) && Smoothable(w, h) ==> |ns| > 0
    ensures |ns| <= 8
  {
    LeftBlock(h, x, y) + RightBlock(w, h, x, y) + ColumnBlock(h, x, y)
  }

  /** No cell occurs twice. */
  ghost predicate Distinct(cs: seq<Cell>) {
    forall i, j :: 0 <= i < j < |cs| ==> cs[i] != cs[j]
  }

  lemma DistinctConcat(a: seq<Cell>, b: seq<Cell>)
    requires Distinct(a) && Distinct(b) && forall c :: c in a ==> c !in b
    ensures Distinct(a + b)
  {
    forall i, j | 0 <= i < j < |a + b|
      ensures (a + b)[i] != (a + b)[j]
    {
      if i < |a| <= j {
        assert (a + b)[i] in a && (a + b)[j] == b[j - |a|];
      }
    }
  }

  lemma LeftBlockExactly(w: int, h: int, x: int, y: int)
    requires InBounds(Cell(x, y), w, h)
    ensures forall c :: c in LeftBlock(h, x, y) <==> IsAdmitted(w, h, x, y, c) && c.x == x - 1
    ensures Distinct(LeftBlock(h, x, y))
  {
  }

  lemma RightBlockExactly(w: int, h: int, x: int, y: int)
    requires InBounds(Cell(x, y), w, h)
    ensures forall c :: c in RightBlock(w, h, x, y) <==> IsAdmitted(w, h, x, y, c) && c.x == x + 1
    ensures Distinct(RightBlock(w, h, x, y))
  {
  }

  lemma ColumnBlockExactly(w: int, h: int, x: int, y: int)
    requires InBounds(Cell(x, y), w, h)
    ensures forall c :: c in ColumnBlock(h, x, y) <==> IsAdmitted(w, h, x, y, c) && c.x == x
    ensures Distinct(ColumnBlock(h, x, y))
  {
  }

  /** The list holds exactly the admitted neighbours, each once. */
  lemma AdmittedExactly(w: int, h: int, x: int, y: int)
    requires InBounds(Cell(x, y), w, h)
    ensures forall c :: c in Admitted(w, h, x, y) <==> IsAdmitted(w, h, x, y, c)
    ensures Distinct(Admitted(w, h, x, y))
  {
    var l, r, m := LeftBlock(h, x, y), RightBlock(w, h, x, y), ColumnBlock(h, x, y);
    LeftBlockExactly(w, h, x, y);
    RightBlockExactly(w, h, x, y);
    ColumnBlockExactly(w, h, x, y);
    DistinctConcat(l, r);
    DistinctConcat(l + r, m);
  }

  /** Every admitted neighbour of a cell on the grid is on the grid. */
  lemma AdmittedInside(w: int, h: int, x: int, y: int)
    requires InBounds(Cell(x, y), w, h)
    ensures forall i :: 0 <= i < |Admitted(w, h, x, y)| ==> InBounds(Admitted(w, h, x, y)[i], w, h)
  {
    AdmittedExactly(w, h, x, y);
    var ns := Admitted(w, h, x, y);
    assert forall i :: 0 <= i < |ns| ==> ns[i] in ns;
  }

  /** The program divides by the neighbour count, which is zero somewhere
      exactly when the grid is 1 or 2 cells wide and 1 or 2 cells high
      (a 2 by 2 grid divides by zero at its corner (1, 1)). */
  lemma SmoothableExactly(w: nat, h: nat)
    ensures Smoothable(w, h) <==>
      forall x, y :: 0 <= x < w && 0 <= y < h ==> |Admitted(w, h, x, y)| > 0
  {
    if !Smoothable(w, h) {
      assert |Admitted(w, h, w - 1, h - 1)| == 0;
    }
  }

  /** The value of cell c, or 0 for a cell off the grid (the passes only
      read cells on it). */
  function ValueAt(g: seq<seq<int>>, c: Cell): (v: int)
    ensures 0 <= c.x < |g| && 0 <= c.y < |g[c.x]| ==> v == g[c.x][c.y]
  {
    if 0 <= c.x < |g| && 0 <= c.y < |g[c.x]| then g[c.x][c.y] else 0
  }

  /** Sum of the grid values at the listed cells. */
  function SumAt(g: seq<seq<int>>, cs: seq<Cell>): int {
    if |cs| == 0 then 0 else SumAt(g, cs[..|cs| - 1]) + ValueAt(g, cs[|cs| - 1])
  }

  /** A sum over cells that all hold non-negative values is non-negative. */
  lemma {:induction false} SumAtNonNegative(g: seq<seq<int>>, cs: seq<Cell>)
    ensures (forall c :: c in cs ==> ValueAt(g, c) >= 0) ==> SumAt(g, cs) >= 0
  {
    if |cs| > 0 && forall c :: c in cs ==> ValueAt(g, c) >= 0 {
      assert cs[|cs| - 1] in cs;
      assert forall c :: c in cs[..|cs| - 1] ==> c in cs;
      SumAtNonNegative(g, cs[..|cs| - 1]);
    }
  }

  /** The new value of cell (x, y) after one pass. */
  function SmoothCell(g: seq<seq<int>>, w: nat, h: nat, x: int, y: int, divisor: int): (v: int)
    requires IsRect(g, w, h) && Smoothable(w, h) && InBounds(Cell(x, y), w, h) && divisor > 0
    ensures g[x][y] >= 0 && (forall c :: c in Admitted(w, h, x, y) ==> ValueAt(g, c) >= 0) ==> v >= 0
  {
    var ns := Admitted(w, h, x, y);
    SumAtNonNegative(g, ns);
    CsDiv(g[x][y] + CsDiv(SumAt(g, ns), |ns|), divisor)
  }

  /** One pass over the whole grid, every cell computed from the old grid. */
  function SmoothPass(g: seq<seq<int>>, w: nat, h: nat, divisor: int): (r: seq<seq<int>>)
    requires IsRect(g, w, h) && Smoothable(w, h) && divisor > 0
    ensures IsRect(r, w, h)
    ensures forall x :: 0 <= x < w ==> r[x] == PassColumn(g, w, h, x, divisor)
    ensures forall x, y :: 0 <= x < w && 0 <= y < h ==> r[x][y] == SmoothCell(g, w, h, x, y, divisor)
  {
    seq(w, x requires 0 <= x < w => PassColumn(g, w, h, x, divisor))
  }

  /** Column x of one pass. */
  function PassColumn(g: seq<seq<int>>, w: nat, h: nat, x: int, divisor: int): (col: seq<int>)
    requires IsRect(g, w, h) && Smoothable(w, h) && divisor > 0 && 0 <= x < w
    ensures |col| == h
    ensures forall y :: 0 <= y < h ==> col[y] == SmoothCell(g, w, h, x, y, divisor)
  {
    seq(h, y requires 0 <= y < h => SmoothCell(g, w, h, x, y, divisor))
  }

  /** `passes` passes, as the loop `while (passes > 0) { passes--; ... }` runs them. */
  function Smooth(g: seq<seq<int>>, w: nat, h: nat, passes: int, divisor: int): (r: seq<seq<int>>)
    requires IsRect(g, w, h) && Smoothable(w, h) && divisor > 0
    ensures IsRect(r, w, h)
    ensures passes <= 0 ==> r == g
    decreases passes
  {
    if passes <= 0 then g else Smooth(SmoothPass(g, w, h, divisor), w, h, passes - 1, divisor)
  }

  /** `SmoothTerrain(passes)`: the blend is halved. */
  function SmoothTerrain(g: seq<seq<int>>, w: nat, h: nat, passes: int): (r: seq<seq<int>>)
    requires IsRect(g, w, h) && Smoothable(w, h)
    ensures IsRect(r, w, h)
    ensures passes <= 0 ==> r == g
    ensures passes > 0 ==> r == SmoothTerrain(SmoothPass(g, w, h, 2), w, h, passes - 1)
    decreases passes
  {
    Smooth(g, w, h, passes, 2)
  }

  /** `SmoothRoads(passes, r)`: the blend is quartered. */
  function SmoothRoads(g: seq<seq<int>>, w: nat, h: nat, passes: int): (r: seq<seq<int>>)
    requires IsRect(g, w, h) && Smoothable(w, h)
    ensures IsRect(r, w, h)
    ensures passes <= 0 ==> r == g
    ensures passes > 0 ==> r == SmoothRoads(SmoothPass(g, w, h, 4), w, h, passes - 1)
    decreases passes
  {
    Smooth(g, w, h, passes, 4)
  }

  /** Every cell of `g` lies in [lo, hi]. */
  ghost predicate Within(g: seq<seq<int>>, w: nat, h: nat, lo: int, hi: int)
    requires IsRect(g, w, h)
  {
    forall x, y :: 0 <= x < w && 0 <= y < h ==> lo <= g[x][y] <= hi
  }

  lemma {:induction false} SumAtWithin(g: seq<seq<int>>, w: nat, h: nat, cs: seq<Cell>, lo: int, hi: int)
    requires IsRect(g, w, h) && Within(g, w, h, lo, hi)
    requires forall i :: 0 <= i < |cs| ==> InBounds(cs[i], w, h)
    ensures |cs| * lo <= SumAt(g, cs) <= |cs| * hi
  {
    if |cs| > 0 {
      SumAtWithin(g, w, h, cs[..|cs| - 1], lo, hi);
      assert |cs| * lo == (|cs| - 1) * lo + lo;
      assert |cs| * hi == (|cs| - 1) * hi + hi;
    }
  }

  lemma {:induction false} SumAtConstant(g: seq<seq<int>>, w: nat, h: nat, cs: seq<Cell>, c: int)
    requires IsRect(g, w, h) && Within(g, w, h, c, c)
    requires forall i :: 0 <= i < |cs| ==> InBounds(cs[i], w, h)
    ensures SumAt(g, cs) == |cs| * c
  {
    SumAtWithin(g, w, h, cs, c, c);
  }

  /** A non-negative total of `k` values in [lo, hi] averages into [lo, hi];
      `k` is a neighbour count or a divisor, so at most 8. */
  lemma DivWithin(a: int, k: int, lo: int, hi: int)
    requires 0 < k <= 8 && 0 <= lo && k * lo <= a <= k * hi
    ensures a >= 0 && lo <= a / k <= hi
  {
    if k == 1 {
    } else if k == 2 {
    } else if k == 3 {
    } else if k == 4 {
    } else if k == 5 {
    } else if k == 6 {
    } else if k == 7 {
    } else {
      assert k == 8;
    }
  }

  lemma CsDivExact(k: int, c: int)
    requires 0 < k <= 8
    ensures CsDiv(k * c, k) == c
  {
    if c >= 0 {
      DivWithin(k * c, k, c, c);
    } else {
      assert -(k * c) == k * (-c);
      DivWithin(k * (-c), k, -c, -c);
    }
  }

  /** A value in [lo, hi] blended with the average of `k` values in [lo, hi]
      and halved stays in [lo, hi]. */
  lemma BlendWithin(v: int, total: int, k: int, lo: int, hi: int)
    requires 0 < k <= 8 && 0 <= lo <= v <= hi && k * lo <= total <= k * hi
    ensures lo <= CsDiv(v + CsDiv(total, k), 2) <= hi
  {
    DivWithin(total, k, lo, hi);
    DivWithin(v + total / k, 2, lo, hi);
  }

  lemma CellStaysWithin(g: seq<seq<int>>, w: nat, h: nat, x: int, y: int, lo: int, hi: int)
    requires IsRect(g, w, h) && Smoothable(w, h) && 0 <= lo && Within(g, w, h, lo, hi)
    requires InBounds(Cell(x, y), w, h)
    ensures lo <= SmoothCell(g, w, h, x, y, 2) <= hi
  {
    var ns := Admitted(w, h, x, y);
    AdmittedInside(w, h, x, y);
    SumAtWithin(g, w, h, ns, lo, hi);
    BlendWithin(g[x][y], SumAt(g, ns), |ns|, lo, hi);
  }

  /** One terrain pass keeps a non-negative grid within the bounds it started in. */
  lemma PassStaysWithin(g: seq<seq<int>>, w: nat, h: nat, lo: int, hi: int)
    requires IsRect(g, w, h) && Smoothable(w, h) && 0 <= lo && Within(g, w, h, lo, hi)
    ensures Within(SmoothPass(g, w, h, 2), w, h, lo, hi)
  {
    forall x, y | 0 <= x < w && 0 <= y < h
      ensures lo <= SmoothPass(g, w, h, 2)[x][y] <= hi
    {
      CellStaysWithin(g, w, h, x, y, lo, hi);
    }
  }

  /** Any number of terrain passes keeps a non-negative grid within its bounds;
      in particular values drawn from [0, 200) stay in [0, 200). */
  lemma {:induction false} SmoothTerrainStaysWithin(g: seq<seq<int>>, w: nat, h: nat, passes: int, lo: int, hi: int)
    requires IsRect(g, w, h) && Smoothable(w, h) && 0 <= lo && Within(g, w, h, lo, hi)
    ensures Within(SmoothTerrain(g, w, h, passes), w, h, lo, hi)
    decreases passes
  {
    if passes > 0 {
      PassStaysWithin(g, w, h, lo, hi);
      SmoothTerrainStaysWithin(SmoothPass(g, w, h, 2), w, h, passes - 1, lo, hi);
    }
  }

  /** A constant grid is a fixed point of a terrain pass: (c + (k * c) / k) / 2 == c. */
  lemma ConstantIsFixedPoint(g: seq<seq<int>>, w: nat, h: nat, c: int)
    requires IsRect(g, w, h) && Smoothable(w, h) && Within(g, w, h, c, c)
    ensures SmoothPass(g, w, h, 2) == g
  {
    var r := SmoothPass(g, w, h, 2);
    forall x | 0 <= x < w
      ensures r[x] == g[x]
    {
      forall y | 0 <= y < h
        ensures r[x][y] == g[x][y]
      {
        var ns := Admitted(w, h, x, y);
        AdmittedInside(w, h, x, y);
        SumAtConstant(g, w, h, ns, c);
        CsDivExact(|ns|, c);
        CsDivExact(2, c);
        assert c + c == 2 * c;
      }
    }
  }

  lemma {:induction false} SumAtAgree(g: seq<seq<int>>, g': seq<seq<int>>, cs: seq<Cell>)
    requires forall i :: 0 <= i < |cs| ==> ValueAt(g, cs[i]) == ValueAt(g', cs[i])
    ensures SumAt(g, cs) == SumAt(g', cs)
  {
    if |cs| > 0 {
      SumAtAgree(g, g', cs[..|cs| - 1]);
    }
  }

  /** Grids that agree on the admitted neighbours of (x, y) give the same
      neighbour total. */
  lemma AdmittedSumAgree(g: seq<seq<int>>, g': seq<seq<int>>, w: nat, h: nat, x: int, y: int)
    requires InBounds(Cell(x, y), w, h)
    requires forall c :: IsAdmitted(w, h, x, y, c) ==> ValueAt(g, c) == ValueAt(g', c)
    ensures SumAt(g, Admitted(w, h, x, y)) == SumAt(g', Admitted(w, h, x, y))
  {
    var ns := Admitted(w, h, x, y);
    AdmittedExactly(w, h, x, y);
    forall i | 0 <= i < |ns|
      ensures ValueAt(g, ns[i]) == ValueAt(g', ns[i])
    {
      assert ns[i] in ns;
    }
    SumAtAgree(g, g', ns);
  }

  /** A new cell depends only on the previous pass's values at the cell and at
      its admitted neighbours. */
  lemma PassIsLocal(g: seq<seq<int>>, g': seq<seq<int>>, w: nat, h: nat, x: int, y: int, divisor: int)
    requires IsRect(g, w, h) && IsRect(g', w, h) && Smoothable(w, h) && divisor > 0
    requires InBounds(Cell(x, y), w, h) && g[x][y] == g'[x][y]
    requires forall c :: IsAdmitted(w, h, x, y, c) ==> ValueAt(g, c) == ValueAt(g', c)
    ensures SmoothPass(g, w, h, divisor)[x][y] == SmoothPass(g', w, h, divisor)[x][y]
  {
    AdmittedSumAgree(g, g', w, h, x, y);
    assert SmoothCell(g, w, h, x, y, divisor) == SmoothCell(g', w, h, x, y, divisor);
  }

  /** One road pass over values drawn from [0, 6) yields values in [0, 2]. */
  lemma RoadPassRange(g: seq<seq<int>>, w: nat, h: nat)
    requires IsRect(g, w, h) && Smoothable(w, h) && Within(g, w, h, 0, 5)
    ensures Within(SmoothRoads(g, w, h, 1), w, h, 0, 2)
  {
    var r := SmoothPass(g, w, h, 4);
    forall x, y | 0 <= x < w && 0 <= y < h
      ensures 0 <= r[x][y] <= 2
    {
      var ns := Admitted(w, h, x, y);
      AdmittedInside(w, h, x, y);
      SumAtWithin(g, w, h, ns, 0, 5);
      DivWithin(SumAt(g, ns), |ns|, 0, 5);
    }
    assert SmoothRoads(g, w, h, 1) == Smooth(r, w, h, 0, 4) == r;
  }

  lemma SumAtAppend(g: seq<seq<int>>, a: seq<Cell>, b: seq<Cell>)
    ensures SumAt(g, a + b) == SumAt(g, a) + SumAt(g, b)
    decreases |b|
  {
    if |b| > 0 {
      assert (a + b)[..|a + b| - 1] == a + b[..|b| - 1];
      SumAtAppend(g, a, b[..|b| - 1]);
    } else {
      assert a + b == a;
    }
  }

  lemma SumAtOpt(g: seq<seq<int>>, b: bool, c: Cell)
    ensures SumAt(g, Opt(b, c)) == if b then ValueAt(g, c) else 0
  {
    if b {
      assert [c][..0] == [];
    }
  }

  /** The sum over an optional pair, in the order the program tests them. */
  lemma SumAtPair(g: seq<seq<int>>, b1: bool, c1: Cell, b2: bool, c2: Cell)
    ensures |Opt(b1, c1) + Opt(b2, c2)| == (if b1 then 1 else 0) + (if b2 then 1 else 0)
    ensures SumAt(g, Opt(b1, c1) + Opt(b2, c2))
         == (if b1 then ValueAt(g, c1) else 0) + (if b2 then ValueAt(g, c2) else 0)
  {
    SumAtAppend(g, Opt(b1, c1), Opt(b2, c2));
    SumAtOpt(g, b1, c1);
    SumAtOpt(g, b2, c2);
  }

  /** The sum over one cell followed by an optional pair. */
  lemma SumAtTriple(g: seq<seq<int>>, c: Cell, b1: bool, c1: Cell, b2: bool, c2: Cell)
    ensures |[c] + Opt(b1, c1) + Opt(b2, c2)| == 1 + (if b1 then 1 else 0) + (if b2 then 1 else 0)
    ensures SumAt(g, [c] + Opt(b1, c1) + Opt(b2, c2))
         == ValueAt(g, c) + (if b1 then ValueAt(g, c1) else 0) + (if b2 then ValueAt(g, c2) else 0)
  {
    SumAtPair(g, b1, c1, b2, c2);
    SumAtOpt(g, true, c);
    assert [c] + Opt(b1, c1) + Opt(b2, c2) == Opt(true, c) + (Opt(b1, c1) + Opt(b2, c2));
    SumAtAppend(g, Opt(true, c), Opt(b1, c1) + Opt(b2, c2));
  }

  /** The total and count the program accumulates inside `if ((x - 1) > 0)`. */
  method LeftTotals(m: seq<seq<int>>, w: nat, h: nat, x: int, y: int) returns (total: int, count: nat)
    requires IsRect(m, w, h) && InBounds(Cell(x, y), w, h)
    ensures count == |LeftBlock(h, x, y)|
    ensures total == SumAt(m, LeftBlock(h, x, y))
  {
    total, count := 0, 0;
    if x - 1 > 0 {
      assert |m[x - 1]| == h;
      total, count := total + m[x - 1][y], count + 1;
      if y - 1 > 0 {
        total, count := total + m[x - 1][y - 1], count + 1;
      }
      if y + 1 < h {
        total, count := total + m[x - 1][y + 1], count + 1;
      }
      SumAtTriple(m, Cell(x - 1, y), y - 1 > 0, Cell(x - 1, y - 1), y + 1 < h, Cell(x - 1, y + 1));
    }
  }

  /** The total and count the program accumulates inside `if ((x + 1) < mapWidth)`. */
  method RightTotals(m: seq<seq<int>>, w: nat, h: nat, x: int, y: int) returns (total: int, count: nat)
    requires IsRect(m, w, h) && InBounds(Cell(x, y), w, h)
    ensures count == |RightBlock(w, h, x, y)|
    ensures total == SumAt(m, RightBlock(w, h, x, y))
  {
    total, count := 0, 0;
    if x + 1 < w {
      assert |m[x + 1]| == h;
      total, count := total + m[x + 1][y], count + 1;
      if y - 1 > 0 {
        total, count := total + m[x + 1][y - 1], count + 1;
      }
      if y + 1 < h {
        total, count := total + m[x + 1][y + 1], count + 1;
      }
      SumAtTriple(m, Cell(x + 1, y), y - 1 > 0, Cell(x + 1, y - 1), y + 1 < h, Cell(x + 1, y + 1));
    }
  }

  /** The total and count the program accumulates from the cells above and below. */
  method ColumnTotals(m: seq<seq<int>>, w: nat, h: nat, x: int, y: int) returns (total: int, count: nat)
    requires IsRect(m, w, h) && InBounds(Cell(x, y), w, h)
    ensures count == |ColumnBlock(h, x, y)|
    ensures total == SumAt(m, ColumnBlock(h, x, y))
  {
    assert |m[x]| == h;
    total, count := 0, 0;
    if y - 1 > 0 {
      total, count := total + m[x][y - 1], count + 1;
    }
    if y + 1 < h {
      total, count := total + m[x][y + 1], count + 1;
    }
    SumAtPair(m, y - 1 > 0, Cell(x, y - 1), y + 1 < h, Cell(x, y + 1));
  }

  /** The neighbour total and count the program accumulates for (x, y). */
  method NeighbourTotals(m: seq<seq<int>>, w: nat, h: nat, x: int, y: int) returns (total: int, count: nat)
    requires IsRect(m, w, h) && InBounds(Cell(x, y), w, h)
    ensures count == |Admitted(w, h, x, y)|
    ensures total == SumAt(m, Admitted(w, h, x, y))
  {
    var lt, lc := LeftTotals(m, w, h, x, y);
    var rt, rc := RightTotals(m, w, h, x, y);
    var ct, cc := ColumnTotals(m, w, h, x, y);
    SumAtAppend(m, LeftBlock(h, x, y), RightBlock(w, h, x, y));
    SumAtAppend(m, LeftBlock(h, x, y) + RightBlock(w, h, x, y), ColumnBlock(h, x, y));
    total, count := lt + rt + ct, lc + rc + cc;
  }

  lemma PrefixGrows<T>(s: seq<T>, n: nat)
    requires n < |s|
    ensures s[..n + 1] == s[..n] + [s[n]]
  {
  }

  lemma PrefixWhole<T>(s: seq<T>)
    ensures s[..|s|] == s
  {
  }

  /** The program's blend of a cell with its neighbour total and count is the
      new value of the cell. */
  lemma CellFromTotals(m: seq<seq<int>>, w: nat, h: nat, x: int, y: int, divisor: int, total: int, count: int)
    requires IsRect(m, w, h) && Smoothable(w, h) && InBounds(Cell(x, y), w, h) && divisor > 0
    requires count == |Admitted(w, h, x, y)| && total == SumAt(m, Admitted(w, h, x, y))
    ensures count > 0
    ensures CsDiv(m[x][y] + CsDiv(total, count), divisor) == SmoothCell(m, w, h, x, y, divisor)
  {
  }

  /** One column of the fresh buffer `tmpMap`. */
  method SmoothColumn(m: seq<seq<int>>, w: nat, h: nat, x: int, divisor: int) returns (col: seq<int>)
    requires IsRect(m, w, h) && Smoothable(w, h) && divisor > 0 && 0 <= x < w
    ensures col == PassColumn(m, w, h, x, divisor)
  {
    ghost var want := PassColumn(m, w, h, x, divisor);
    col := [];
    var y := 0;
    while y < h
      invariant 0 <= y <= h && col == want[..y]
    {
      var total, count := NeighbourTotals(m, w, h, x, y);
      CellFromTotals(m, w, h, x, y, divisor, total, count);
      col := col + [CsDiv(m[x][y] + CsDiv(total, count), divisor)];
      PrefixGrows(want, y);
      y := y + 1;
    }
    PrefixWhole(want);
  }

  /** The whole fresh buffer `tmpMap` of one pass. */
  method SmoothOnce(m: seq<seq<int>>, w: nat, h: nat, divisor: int) returns (tmp: seq<seq<int>>)
    requires IsRect(m, w, h) && Smoothable(w, h) && divisor > 0
    ensures tmp == SmoothPass(m, w, h, divisor)
  {
    ghost var want := SmoothPass(m, w, h, divisor);
    tmp := [];
    var x := 0;
    while x < w
      invariant 0 <= x <= w && tmp == want[..x]
    {
      var col := SmoothColumn(m, w, h, x, divisor);
      tmp := tmp + [col];
      PrefixGrows(want, x);
      x := x + 1;
    }
    PrefixWhole(want);
  }

  /** The program's pass loop: each pass fills a fresh buffer from the current
      grid and then copies it back. */
  method SmoothInPlace(field: seq<seq<int>>, w: nat, h: nat, passes: int, divisor: int) returns (m: seq<seq<int>>)
    requires IsRect(field, w, h) && Smoothable(w, h) && divisor > 0
    ensures m == Smooth(field, w, h, passes, divisor)
  {
    m := field;
    var left := passes;
    while left > 0
      invariant IsRect(m, w, h)
      invariant Smooth(m, w, h, left, divisor) == Smooth(field, w, h, passes, divisor)
      decreases left
    {
      left := left - 1;
      var tmp := SmoothOnce(m, w, h, divisor);
      m := tmp;
    }
  }
}
