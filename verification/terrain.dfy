/**
 * Terrain bands and the traversal cost of a tile (`GetTileValue`).
 * Costs are exact reals: the program multiplies `float`s by `0.75f` and
 * `0.65f`, whose rounding is not modelled.
 */
module Terrain {
  import opened Wrappers

  /** C#'s `int.MaxValue`, the cost of a Water tile. */
  const IntMax: int := 2147483647

  /** The eight terrain kinds, in the order of their value bands. */
  datatype Band = Swamp | Rough | Water | Grass | Dirt | Sand | Lava | Snow

  /** The test the program uses for impassable water: `map >= 50 && map < 75`. */
  predicate IsWater(v: int) {
    50 <= v < 75
  }

  /** The band of a terrain value, by the cascade of tests the program uses.
      The first test is `v < 25` with no lower bound, so negative values
      are Swamp; values of 200 and more have no band. */
  function BandOf(v: int): (b: Option<Band>)
    ensures b.None? <==> v >= 200
    ensures v < 0 ==> b == Some(Swamp)
    ensures b.Some? && v >= 0 ==> 25 * Rank(b.value) <= v < 25 * Rank(b.value) + 25
  {
    if v < 25 then Some(Swamp)
    else if v >= 25 && v < 50 then Some(Rough)
    else if v >= 50 && v < 75 then Some(Water)
    else if v >= 75 && v < 100 then Some(Grass)
    else if v >= 100 && v < 125 then Some(Dirt)
    else if v >= 125 && v < 150 then Some(Sand)
    else if v >= 150 && v < 175 then Some(Lava)
    else if v >= 175 && v < 200 then Some(Snow)
    else None
  }

  /** Position of a band in the ordering Swamp < Rough < ... < Snow. */
  function Rank(b: Band): (k: nat)
    ensures k < 8
  {
    match b
    case Swamp => 0
    case Rough => 1
    case Water => 2
    case Grass => 3
    case Dirt => 4
    case Sand => 5
    case Lava => 6
    case Snow => 7
  }

  /** Cost of a tile of a passable band without a road. */
  function BaseCost(b: Band): real
    requires b != Water
  {
    match b
    case Swamp => 175.0
    case Rough => 125.0
    case Grass => 100.0
    case Dirt => 100.0
    case Sand => 150.0
    case Lava => 175.0
    case Snow => 150.0
  }

  /** Discount a road gives: a quarter off the expensive kinds, over a third
      off the cheap ones. */
  function RoadFactor(b: Band): real
    requires b != Water
  {
    match b
    case Swamp => 0.75
    case Rough => 0.75
    case Sand => 0.75
    case Lava => 0.75
    case Grass => 0.65
    case Dirt => 0.65
    case Snow => 0.65
  }

  /** `GetTileValue` for a tile holding terrain value `v`, with `road` its road flag. */
  function TileValue(v: int, road: bool): (cost: real)
    ensures IsWater(v) ==> cost == IntMax as real
    ensures v >= 200 ==> cost == -1.0
    ensures v < 200 && !IsWater(v) ==> 0.0 < cost <= 175.0
  {
    var value :=
      if v < 25 then (if road then 175.0 * 0.75 else 175.0)
      else if v >= 25 && v < 50 then (if road then 125.0 * 0.75 else 125.0)
      else if v >= 50 && v < 75 then IntMax as real
      else if v >= 75 && v < 100 then (if road then 100.0 * 0.65 else 100.0)
      else if v >= 100 && v < 125 then (if road then 100.0 * 0.65 else 100.0)
      else if v >= 125 && v < 150 then (if road then 150.0 * 0.75 else 150.0)
      else if v >= 150 && v < 175 then (if road then 175.0 * 0.75 else 175.0)
      else if v >= 175 && v < 200 then (if road then 150.0 * 0.65 else 150.0)
      else -1.0;
    value
  }

  /** The bands partition [0, 200) into eight half-open intervals of width 25,
      in rank order; below 0 is Swamp and from 200 on there is no band. */
  lemma BandsPartition(v: int, b: Band)
    ensures 0 <= v < 200 ==> (BandOf(v) == Some(b) <==> 25 * Rank(b) <= v < 25 * Rank(b) + 25)
    ensures v < 0 ==> BandOf(v) == Some(Swamp)
    ensures v >= 200 ==> BandOf(v) == None
    ensures BandOf(v) == Some(Water) <==> IsWater(v)
  {
  }

  /** `GetTileValue` is the table lookup by band: -1 without a band, `int.MaxValue`
      for Water, otherwise the base cost, times the band's road factor on a road. */
  lemma TileValueByBand(v: int, road: bool)
    ensures BandOf(v).None? ==> TileValue(v, road) == -1.0
    ensures BandOf(v) == Some(Water) ==> TileValue(v, road) == IntMax as real
    ensures BandOf(v).Some? && BandOf(v).value != Water ==>
      TileValue(v, road) == (if road then BaseCost(BandOf(v).value) * RoadFactor(BandOf(v).value)
                             else BaseCost(BandOf(v).value))
  {
  }

  /** A road never makes a passable tile dearer, and the discount is exactly
      0.75 on Swamp, Rough, Sand and Lava and 0.65 on Grass, Dirt and Snow. */
  lemma RoadNeverDearer(v: int)
    requires v < 200 && !IsWater(v)
    ensures TileValue(v, true) < TileValue(v, false)
    ensures BandOf(v) in {Some(Swamp), Some(Rough), Some(Sand), Some(Lava)} ==>
      TileValue(v, true) == 0.75 * TileValue(v, false)
    ensures BandOf(v) in {Some(Grass), Some(Dirt), Some(Snow)} ==>
      TileValue(v, true) == 0.65 * TileValue(v, false)
  {
  }
}
