/**
 * The cost policy: what one step of the search adds to the accumulated cost,
 * and the cost of a whole path step by step.
 */
module Cost {
  import opened Optional
  import opened Grid

  /**
   * The cost of stepping from a cell of tile `current` onto a cell of tile
   * `next`. `cameFrom` is the tile of the cell the current node was reached
   * from, or None for the start node. Entering a wall in transform mode costs
   * 2; leaving a wall compares colours against `cameFrom`; any other step costs
   * 0 between equal colours and 1 between different ones. None is the case the
   * engine cannot evaluate: leaving a wall that has no predecessor.
   */
  function StepCost(canTransform: bool, current: TileType, cameFrom: Option<TileType>, next: TileType): (r: Option<nat>)
    ensures r.None? <==> !(canTransform && next == Wall) && current == Wall && cameFrom.None?
    ensures r.Some? ==> r.value <= 2
    ensures r == Some(2) <==> canTransform && next == Wall
  {
    if canTransform && next == Wall then Some(2)
    else if current == Wall then
      match cameFrom
      case None => None
      case Some(t) => Some(if t == next then 0 else 1)
    else Some(if current == next then 0 else 1)
  }

  /**
   * Without a wall on either side, a step is free exactly between two tiles of
   * one colour; leaving a wall without transforming, it is free exactly when
   * the next tile has the colour of the cell the wall was entered from.
   */
  lemma StepCostCases(canTransform: bool, current: TileType, cameFrom: Option<TileType>, next: TileType)
    ensures current != Wall && next != Wall ==>
      (StepCost(canTransform, current, cameFrom, next) == Some(0) <==> current == next)
    ensures current == Wall && cameFrom.Some? && !(canTransform && next == Wall) ==>
      (StepCost(canTransform, current, cameFrom, next) == Some(0) <==> cameFrom.value == next)
  {
  }

  /**
   * The cost of the step from `path[k]` to `path[k + 1]`, the colour of a wall
   * being taken from `path[k - 1]`. A step the engine cannot evaluate (leaving a
   * wall at the start of the path) is counted as 0; the search never takes one.
   */
  function StepAt(tiles: array2<TileType>, path: seq<Pos>, k: nat, canTransform: bool): nat
    reads tiles
    requires k + 1 < |path|
    requires forall i :: 0 <= i < |path| ==> InBounds(SizeOf(tiles), path[i])
  {
    var cameFrom := if k == 0 then None else Some(Tile(tiles, path[k - 1]));
    match StepCost(canTransform, Tile(tiles, path[k]), cameFrom, Tile(tiles, path[k + 1]))
    case None => 0
    case Some(c) => c
  }

  /** The sum of the step costs along `path`. */
  function PathCost(tiles: array2<TileType>, path: seq<Pos>, canTransform: bool): nat
    reads tiles
    requires forall i :: 0 <= i < |path| ==> InBounds(SizeOf(tiles), path[i])
    decreases |path|
  {
    if |path| <= 1 then 0
    else PathCost(tiles, path[..|path| - 1], canTransform) + StepAt(tiles, path, |path| - 2, canTransform)
  }

  /** Every step costs at most 2, so a path of n cells costs at most 2(n - 1). */
  lemma {:induction false} PathCostBound(tiles: array2<TileType>, path: seq<Pos>, canTransform: bool)
    requires forall i :: 0 <= i < |path| ==> InBounds(SizeOf(tiles), path[i])
    ensures PathCost(tiles, path, canTransform) <= 2 * |path|
    ensures |path| > 0 ==> PathCost(tiles, path, canTransform) <= 2 * (|path| - 1)
  {
    if |path| > 1 {
      var k := |path| - 2;
      var cameFrom := if k == 0 then None else Some(Tile(tiles, path[k - 1]));
      StepCostCases(canTransform, Tile(tiles, path[k]), cameFrom, Tile(tiles, path[k + 1]));
      PathCostBound(tiles, path[..|path| - 1], canTransform);
    }
  }

  /** Without transforming, a path whose cells all have one colour costs nothing. */
  lemma {:induction false} SameColourPathIsFree(tiles: array2<TileType>, path: seq<Pos>, colour: TileType)
    requires colour != Wall
    requires forall i :: 0 <= i < |path| ==> InBounds(SizeOf(tiles), path[i]) && Tile(tiles, path[i]) == colour
    ensures PathCost(tiles, path, false) == 0
  {
    if |path| > 1 {
      SameColourPathIsFree(tiles, path[..|path| - 1], colour);
    }
  }
}
