/**
 * The board: tile kinds, integer coordinates, bounds, and the two neighbour
 * rules of the path search (the four in-bounds cells around a cell, and which
 * of them may be entered, with or without transforming walls).
 */
module Grid {

  /** The three tile kinds; the enum codes are 0, 1 and 2 in this order. */
  datatype TileType = Wall | Blue | Red

  /** The tile named by an enum code, as a cast from int to the enum gives it. */
  function TileOf(code: int): (t: TileType)
    requires 0 <= code < 3
    ensures t == Wall <==> code == 0
    ensures t == Blue <==> code == 1
  {
    if code == 0 then Wall else if code == 1 then Blue else Red
  }

  /** An integer coordinate pair, the engine's two-component integer vector. */
  datatype Pos = Pos(x: int, y: int) {
    function Plus(d: Pos): Pos { Pos(x + d.x, y + d.y) }
    function Minus(o: Pos): Pos { Pos(x - o.x, y - o.y) }
  }

  predicate InBounds(size: Pos, p: Pos) {
    0 <= p.x < size.x && 0 <= p.y < size.y
  }

  /** Width and height of a tile array: its two dimensions. */
  function SizeOf(tiles: array2<TileType>): Pos {
    Pos(tiles.Length0, tiles.Length1)
  }

  function Tile(tiles: array2<TileType>, p: Pos): TileType
    reads tiles
    requires InBounds(SizeOf(tiles), p)
  {
    tiles[p.x, p.y]
  }

  function Abs(n: int): nat { if n < 0 then -n else n }

  /** Grid adjacency: Manhattan distance exactly 1. */
  predicate Adjacent(a: Pos, b: Pos) {
    Abs(a.x - b.x) + Abs(a.y - b.y) == 1
  }

  /** The four unit offsets, in the fixed order +x, -x, +y, -y. */
  const Directions: seq<Pos> := [Pos(1, 0), Pos(-1, 0), Pos(0, 1), Pos(0, -1)]

  /** Position of an offset in the fixed direction order. */
  function Rank(d: Pos): nat {
    if d == Pos(1, 0) then 0
    else if d == Pos(-1, 0) then 1
    else if d == Pos(0, 1) then 2
    else 3
  }

  /** The four cells around `p`, in direction order, whether on the board or not. */
  function Candidates(p: Pos): seq<Pos> {
    [p.Plus(Directions[0]), p.Plus(Directions[1]), p.Plus(Directions[2]), p.Plus(Directions[3])]
  }

  /** The cells of `cells` that lie on a board of the given size, in their order. */
  function KeepInBounds(size: Pos, cells: seq<Pos>): (r: seq<Pos>)
    ensures |r| <= |cells|
    ensures forall q :: q in r <==> q in cells && InBounds(size, q)
  {
    if cells == [] then []
    else
      var init, last := cells[..|cells| - 1], cells[|cells| - 1];
      assert cells == init + [last];
      var kept := KeepInBounds(size, init);
      if InBounds(size, last) then kept + [last] else kept
  }

  /** The in-bounds cells around `p`: what the engine's potential-neighbour list holds. */
  function PotentialNeighbours(size: Pos, p: Pos): seq<Pos> {
    KeepInBounds(size, Candidates(p))
  }

  /** Offsets from `p` strictly increase in direction order along `s`. */
  predicate InDirectionOrder(p: Pos, s: seq<Pos>) {
    forall i, j :: 0 <= i < j < |s| ==> Rank(s[i].Minus(p)) < Rank(s[j].Minus(p))
  }

  lemma {:induction false} KeepInBoundsKeepsOrder(size: Pos, p: Pos, cells: seq<Pos>)
    requires InDirectionOrder(p, cells)
    ensures InDirectionOrder(p, KeepInBounds(size, cells))
  {
    if cells != [] {
      var init, last := cells[..|cells| - 1], cells[|cells| - 1];
      KeepInBoundsKeepsOrder(size, p, init);
      var kept := KeepInBounds(size, init);
      forall q | q in kept ensures Rank(q.Minus(p)) < Rank(last.Minus(p)) {
        var k :| 0 <= k < |init| && init[k] == q;
        assert cells[k] == q;
      }
    }
  }

  /**
   * The potential neighbours of `p` are exactly the in-bounds cells adjacent to
   * it, at most four of them, listed in the order +x, -x, +y, -y.
   */
  lemma PotentialNeighboursShape(size: Pos, p: Pos)
    ensures |PotentialNeighbours(size, p)| <= 4
    ensures forall q :: q in PotentialNeighbours(size, p) <==> InBounds(size, q) && Adjacent(p, q)
    ensures InDirectionOrder(p, PotentialNeighbours(size, p))
  {
    var c := Candidates(p);
    forall q ensures q in c <==> Adjacent(p, q) {
      if Adjacent(p, q) {
        var dx, dy := q.x - p.x, q.y - p.y;
        assert q == p.Plus(Pos(dx, dy));
      }
    }
    KeepInBoundsKeepsOrder(size, p, c);
  }

  /** Some cell of `cells` other than `except` is not a wall. */
  predicate AnyOpenExcept(tiles: array2<TileType>, cells: seq<Pos>, except: Pos)
    reads tiles
    requires forall q :: q in cells ==> InBounds(SizeOf(tiles), q)
  {
    exists q :: q in cells && q != except && Tile(tiles, q) != Wall
  }

  /**
   * Whether the search may step from `from` onto the adjacent cell `to`: any
   * non-wall may be entered; a wall only in transform mode, only from a
   * non-wall, and only when the wall has another non-wall cell around it.
   */
  predicate Enterable(tiles: array2<TileType>, from: Pos, to: Pos, canTransform: bool)
    reads tiles
    requires InBounds(SizeOf(tiles), from) && InBounds(SizeOf(tiles), to)
  {
    Tile(tiles, to) != Wall
    || (Tile(tiles, from) != Wall && canTransform
        && AnyOpenExcept(tiles, PotentialNeighbours(SizeOf(tiles), to), from))
  }

  /** The cells of `cells` that may be entered from `from`, in their order. */
  function KeepEnterable(tiles: array2<TileType>, from: Pos, cells: seq<Pos>, canTransform: bool): (r: seq<Pos>)
    reads tiles
    requires InBounds(SizeOf(tiles), from)
    requires forall q :: q in cells ==> InBounds(SizeOf(tiles), q)
    ensures |r| <= |cells|
    ensures forall q :: q in r <==> q in cells && Enterable(tiles, from, q, canTransform)
  {
    if cells == [] then []
    else
      var init, last := cells[..|cells| - 1], cells[|cells| - 1];
      assert cells == init + [last];
      var kept := KeepEnterable(tiles, from, init, canTransform);
      if Enterable(tiles, from, last, canTransform) then kept + [last] else kept
  }

  lemma {:induction false} KeepEnterableKeepsOrder(tiles: array2<TileType>, from: Pos, cells: seq<Pos>, canTransform: bool)
    requires InBounds(SizeOf(tiles), from)
    requires forall q :: q in cells ==> InBounds(SizeOf(tiles), q)
    requires InDirectionOrder(from, cells)
    ensures InDirectionOrder(from, KeepEnterable(tiles, from, cells, canTransform))
  {
    if cells != [] {
      var init, last := cells[..|cells| - 1], cells[|cells| - 1];
      KeepEnterableKeepsOrder(tiles, from, init, canTransform);
      var kept := KeepEnterable(tiles, from, init, canTransform);
      forall q | q in kept ensures Rank(q.Minus(from)) < Rank(last.Minus(from)) {
        var k :| 0 <= k < |init| && init[k] == q;
        assert cells[k] == q;
      }
    }
  }

  /** The cells the search examines around `pos`. */
  function Neighbours(tiles: array2<TileType>, pos: Pos, canTransform: bool): seq<Pos>
    reads tiles
    requires InBounds(SizeOf(tiles), pos)
  {
    KeepEnterable(tiles, pos, PotentialNeighbours(SizeOf(tiles), pos), canTransform)
  }

  /**
   * A neighbour is an in-bounds adjacent cell that may be entered; there are at
   * most four, listed in the order +x, -x, +y, -y.
   */
  lemma NeighboursShape(tiles: array2<TileType>, pos: Pos, canTransform: bool)
    requires InBounds(SizeOf(tiles), pos)
    ensures |Neighbours(tiles, pos, canTransform)| <= 4
    ensures forall q :: q in Neighbours(tiles, pos, canTransform) <==>
      InBounds(SizeOf(tiles), q) && Adjacent(pos, q) && Enterable(tiles, pos, q, canTransform)
    ensures InDirectionOrder(pos, Neighbours(tiles, pos, canTransform))
  {
    PotentialNeighboursShape(SizeOf(tiles), pos);
    KeepEnterableKeepsOrder(tiles, pos, PotentialNeighbours(SizeOf(tiles), pos), canTransform);
  }

  /** Without transforming, the search never steps onto a wall. */
  lemma BaseModeAvoidsWalls(tiles: array2<TileType>, pos: Pos, q: Pos)
    requires InBounds(SizeOf(tiles), pos)
    ensures q in Neighbours(tiles, pos, false) <==>
      InBounds(SizeOf(tiles), q) && Adjacent(pos, q) && Tile(tiles, q) != Wall
  {
    NeighboursShape(tiles, pos, false);
  }

  /**
   * In transform mode a wall is a neighbour exactly when it is adjacent, the
   * current cell is not a wall, and some other in-bounds cell adjacent to the
   * wall is not a wall.
   */
  lemma TransformModeWallRule(tiles: array2<TileType>, pos: Pos, q: Pos)
    requires InBounds(SizeOf(tiles), pos) && InBounds(SizeOf(tiles), q) && Tile(tiles, q) == Wall
    ensures q in Neighbours(tiles, pos, true) <==>
      Adjacent(pos, q) && Tile(tiles, pos) != Wall &&
      exists m :: InBounds(SizeOf(tiles), m) && Adjacent(q, m) && m != pos && Tile(tiles, m) != Wall
  {
    NeighboursShape(tiles, pos, true);
    PotentialNeighboursShape(SizeOf(tiles), q);
  }

  /**
   * `path` runs from `from` to `to` on the board, and every step goes to a cell
   * the search lists as a neighbour of the previous one in this mode.
   */
  predicate IsPath(tiles: array2<TileType>, path: seq<Pos>, canTransform: bool, from: Pos, to: Pos)
    reads tiles
  {
    && |path| > 0 && path[0] == from && path[|path| - 1] == to
    && (forall k :: 0 <= k < |path| ==> InBounds(SizeOf(tiles), path[k]))
    && (forall k :: 0 <= k < |path| - 1 ==> path[k + 1] in Neighbours(tiles, path[k], canTransform))
  }

  /** Consecutive cells of a path are grid-adjacent. */
  lemma PathStepsAdjacent(tiles: array2<TileType>, path: seq<Pos>, canTransform: bool, from: Pos, to: Pos)
    requires IsPath(tiles, path, canTransform, from, to)
    ensures forall k :: 0 <= k < |path| - 1 ==> Adjacent(path[k], path[k + 1])
  {
    forall k | 0 <= k < |path| - 1 ensures Adjacent(path[k], path[k + 1]) {
      NeighboursShape(tiles, path[k], canTransform);
    }
  }

  /** Without transforming, no cell of a path after its first is a wall. */
  lemma BasePathAvoidsWalls(tiles: array2<TileType>, path: seq<Pos>, from: Pos, to: Pos)
    requires IsPath(tiles, path, false, from, to)
    ensures forall k :: 0 < k < |path| ==> Tile(tiles, path[k]) != Wall
  {
    forall k | 0 < k < |path| ensures Tile(tiles, path[k]) != Wall {
      BaseModeAvoidsWalls(tiles, path[k - 1], path[k]);
    }
  }

  /**
   * In transform mode every wall a path crosses (after its first cell) is
   * entered from a non-wall and has another non-wall cell adjacent to it.
   */
  lemma TransformPathWallsHaveExit(tiles: array2<TileType>, path: seq<Pos>, from: Pos, to: Pos)
    requires IsPath(tiles, path, true, from, to)
    ensures forall k :: 0 < k < |path| && Tile(tiles, path[k]) == Wall ==>
      Tile(tiles, path[k - 1]) != Wall &&
      exists m :: InBounds(SizeOf(tiles), m) && Adjacent(path[k], m) && m != path[k - 1] && Tile(tiles, m) != Wall
  {
    forall k | 0 < k < |path| && Tile(tiles, path[k]) == Wall
      ensures Tile(tiles, path[k - 1]) != Wall
      ensures exists m :: InBounds(SizeOf(tiles), m) && Adjacent(path[k], m) && m != path[k - 1] && Tile(tiles, m) != Wall
    {
      TransformModeWallRule(tiles, path[k - 1], path[k]);
    }
  }
}
