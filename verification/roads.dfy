/**
 * Map and road generation (`GenerateMap`, `GenerateRoad`) with the random
 * fields given as inputs: `noise` holds the draws the program takes from
 * `Random.Next`.
 */
module Roads {
  import opened Grid
  import opened Terrain
  import opened Smoothing

  /** The suppression test for a value-1 cell: the left, right, upper and
      lower tests `x - 1 > 0`, `x + 1 < w`, `y - 1 > 0`, `y + 1 < h` all
      pass and all four of those neighbours are 0. */
  predicate Isolated(r: seq<seq<int>>, w: nat, h: nat, x: int, y: int)
    requires IsRect(r, w, h) && InBounds(Cell(x, y), w, h)
  {
    && (x - 1 > 0 && r[x - 1][y] == 0)
    && (x + 1 < w && r[x + 1][y] == 0)
    && (y - 1 > 0 && r[x][y - 1] == 0)
    && (y + 1 < h && r[x][y + 1] == 0)
  }

  /** `roads[x, y]` after the threshold loop, `r` being the smoothed road field.
      A cell the loop does not write keeps the `false` of the fresh array. The
      second water test, `!(map > 50 && map < 75)`, decides nothing: the first
      test already sent every water cell to `false`. */
  function RoadAt(terrain: seq<seq<int>>, r: seq<seq<int>>, w: nat, h: nat, x: int, y: int): (road: bool)
    requires IsRect(terrain, w, h) && IsRect(r, w, h) && InBounds(Cell(x, y), w, h)
    ensures road <==> r[x][y] == 1 && !IsWater(terrain[x][y]) && !Isolated(r, w, h, x, y)
  {
    var t := terrain[x][y];
    if r[x][y] == 0 || (t >= 50 && t < 75) then false
    else if r[x][y] == 1 && !(t > 50 && t < 75) then !Isolated(r, w, h, x, y)
    else false
  }

  /** The road grid the threshold loop leaves behind. */
  function Threshold(terrain: seq<seq<int>>, r: seq<seq<int>>, w: nat, h: nat): (roads: seq<seq<bool>>)
    requires IsRect(terrain, w, h) && IsRect(r, w, h)
    ensures IsRect(roads, w, h)
    ensures forall x, y :: 0 <= x < w && 0 <= y < h ==> roads[x][y] == RoadAt(terrain, r, w, h, x, y)
  {
    seq(w, x requires 0 <= x < w => seq(h, y requires 0 <= y < h => RoadAt(terrain, r, w, h, x, y)))
  }

  /** `GenerateRoad`: one quartering pass over the noise, then the threshold. */
  function GenerateRoad(terrain: seq<seq<int>>, noise: seq<seq<int>>, w: nat, h: nat): (roads: seq<seq<bool>>)
    requires IsRect(terrain, w, h) && IsRect(noise, w, h) && Smoothable(w, h)
    ensures IsRect(roads, w, h)
    ensures forall x, y :: 0 <= x < w && 0 <= y < h && IsWater(terrain[x][y]) ==> !roads[x][y]
    ensures forall x, y :: 0 <= x < w && 0 <= y < h && roads[x][y] ==> SmoothRoads(noise, w, h, 1)[x][y] == 1
  {
    Threshold(terrain, SmoothRoads(noise, w, h, 1), w, h)
  }

  /** `GenerateMap`: the drawn values, smoothed `passes` times. */
  function GenerateMap(noise: seq<seq<int>>, w: nat, h: nat, passes: int): (m: seq<seq<int>>)
    requires IsRect(noise, w, h) && Smoothable(w, h)
    ensures IsRect(m, w, h)
  {
    SmoothTerrain(noise, w, h, passes)
  }

  /** Draws from [0, 200) give a map within [0, 200), whatever the number of passes. */
  lemma GenerateMapInRange(noise: seq<seq<int>>, w: nat, h: nat, passes: int)
    requires IsRect(noise, w, h) && Smoothable(w, h) && Within(noise, w, h, 0, 199)
    ensures Within(GenerateMap(noise, w, h, passes), w, h, 0, 199)
  {
    SmoothTerrainStaysWithin(noise, w, h, passes, 0, 199);
  }

  /** A value-1, non-water cell on the border, or in column 1 or row 1, can
      never be isolated, so it is always a road. */
  lemma EdgeOneIsRoad(terrain: seq<seq<int>>, r: seq<seq<int>>, w: nat, h: nat, x: int, y: int)
    requires IsRect(terrain, w, h) && IsRect(r, w, h) && InBounds(Cell(x, y), w, h)
    requires r[x][y] == 1 && !IsWater(terrain[x][y])
    requires x <= 1 || x == w - 1 || y <= 1 || y == h - 1
    ensures RoadAt(terrain, r, w, h, x, y)
  {
  }
}
