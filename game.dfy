/**
 * The game board and its path search. The board owns a rectangular tile
 * array whose start is the top-left cell and whose end is the bottom-right
 * cell; the search is a best-first search over the board whose step costs
 * depend on tile colours and, in transform mode, lets walls be crossed.
 *
 * The large invariants of the search (`Search`, `Running`, `Expanding`,
 * `Pushed`) keep their parts in a companion predicate (`SearchAt`, `TallyAt`,
 * `ExpandingAt`, `PushedAt`) with an extra argument, and state it as
 * `forall point: nat | point == 0 :: PartsAt(..., point)`. The solver only
 * instantiates that quantifier where a proof mentions `PartsAt(..., 0)`, so
 * the method and loop proofs that merely carry an invariant along never see
 * its parts; small lemmas beside each invariant unpack and repack it.
 */
module GameEngine {
  import opened Optional
  import opened Grid
  import opened Cost
  import opened Frontier
  import opened Arena
  import opened Scores

  /** The two runtime exceptions the search can raise. */
  datatype Exception = NullReferenceException | IndexOutOfRangeException

  /** What a search returns: the path (empty if none), its cost (-1 if none) and the iteration count. */
  datatype SearchResult = SearchResult(path: seq<Pos>, cost: int, iterations: nat)

  /** A search either returns a result or raises an exception. */
  datatype Outcome = Returned(result: SearchResult) | Threw(exception: Exception)

  /** The built-in example map as enum codes; row y lists the cells (0, y) to (7, y). */
  const ExampleLayout: seq<seq<int>> := [
    [2, 2, 0, 0, 0, 1, 0, 0],
    [0, 1, 2, 2, 0, 0, 0, 0],
    [0, 2, 1, 0, 0, 2, 0, 0],
    [0, 0, 1, 1, 2, 0, 1, 0],
    [0, 0, 2, 0, 2, 1, 0, 0],
    [0, 0, 1, 1, 1, 2, 2, 0],
    [0, 1, 0, 0, 2, 0, 1, 1],
    [0, 0, 0, 0, 1, 1, 2, 1]
  ]

  lemma ExampleLayoutCodes()
    ensures |ExampleLayout| == 8
    ensures forall y :: 0 <= y < 8 ==> |ExampleLayout[y]| == 8
    ensures forall y, x :: 0 <= y < 8 && 0 <= x < 8 ==> 0 <= ExampleLayout[y][x] < 3
  {
  }

  /** `t` is the 8-by-8 example map, cell (x, y) taken from row y, column x of the layout. */
  ghost predicate IsExample(t: array2<TileType>)
    reads t
  {
    ExampleLayoutCodes();
    && t.Length0 == 8 && t.Length1 == 8
    && forall x, y :: 0 <= x < 8 && 0 <= y < 8 ==> t[x, y] == TileOf(ExampleLayout[y][x])
  }

  /** Total number of neighbours of the given cells: what the search counts as iterations. */
  function NeighbourCount(tiles: array2<TileType>, cells: seq<Pos>, canTransform: bool): nat
    reads tiles
    requires forall k :: 0 <= k < |cells| ==> InBounds(SizeOf(tiles), cells[k])
  {
    if cells == [] then 0
    else NeighbourCount(tiles, cells[..|cells| - 1], canTransform)
         + |Neighbours(tiles, cells[|cells| - 1], canTransform)|
  }

  /** Counting one more expanded cell adds that cell's neighbours. */
  lemma NeighbourCountAppend(tiles: array2<TileType>, cells: seq<Pos>, p: Pos, canTransform: bool)
    requires forall k :: 0 <= k < |cells| ==> InBounds(SizeOf(tiles), cells[k])
    requires InBounds(SizeOf(tiles), p)
    ensures NeighbourCount(tiles, cells + [p], canTransform)
      == NeighbourCount(tiles, cells, canTransform) + |Neighbours(tiles, p, canTransform)|
  {
    assert (cells + [p])[..|cells|] == cells;
  }

  /** The tile of the cell node `c` was reached from, if it has a parent. */
  function CameFrom(tiles: array2<TileType>, nodes: seq<AStarNode>, c: nat): Option<TileType>
    reads tiles
    requires c < |nodes|
  {
    match nodes[c].parent
    case None => None
    case Some(p) =>
      if p < |nodes| && InBounds(SizeOf(tiles), nodes[p].position)
      then Some(Tile(tiles, nodes[p].position)) else None
  }

  /**
   * What the search keeps true of its nodes and its score table: the node
   * tree is well formed and rooted at the start; each non-start node was
   * reached by a legal step; every node's cell has a score no larger than the
   * node's G, and G is between 0 and the cost of the node's chain from the
   * start; scores are non-negative; and nodes beyond the start exist only on
   * a board that has the start cell and whose start is not a wall.
   */
  ghost predicate NodesAndScores(tiles: array2<TileType>, canTransform: bool, start: Pos,
                                 nodes: seq<AStarNode>, g: ScoreTable)
    reads tiles
  {
    && WellFormed(nodes)
    && nodes[0].position == start && nodes[0].costG == 0
    && NonNegative(g)
    && ScoresCover(nodes, g)
    && (!InBounds(SizeOf(tiles), start) ==> |nodes| == 1)
    && (|nodes| > 1 ==> InBounds(SizeOf(tiles), start) && Tile(tiles, start) != Wall)
    && (InBounds(SizeOf(tiles), start) ==> Linked(tiles, canTransform, nodes) && ChainsPriced(tiles, canTransform, nodes))
  }

  /** Every node's cell has a score, no worse than the node's G. */
  ghost predicate ScoresCover(nodes: seq<AStarNode>, g: ScoreTable) {
    forall i :: 0 <= i < |nodes| ==> CoveredAt(nodes, g, i)
  }

  /** Node `i`'s cell has a score no worse than the node's G. */
  ghost predicate CoveredAt(nodes: seq<AStarNode>, g: ScoreTable, i: nat)
    requires i < |nodes|
  {
    nodes[i].position in g && g[nodes[i].position] <= nodes[i].costG
  }

  /** Every node's chain lies on the board and its G is between 0 and that chain's cost. */
  ghost predicate ChainsPriced(tiles: array2<TileType>, canTransform: bool, nodes: seq<AStarNode>)
    reads tiles
    requires WellFormed(nodes)
  {
    forall i :: 0 <= i < |nodes| ==> PricedAt(tiles, canTransform, nodes, i)
  }

  /** Node `i`'s chain lies on the board and its G is between 0 and that chain's cost. */
  ghost predicate PricedAt(tiles: array2<TileType>, canTransform: bool, nodes: seq<AStarNode>, i: nat)
    reads tiles
    requires WellFormed(nodes) && i < |nodes|
  {
    && (forall k :: 0 <= k < |Chain(nodes, i)| ==> InBounds(SizeOf(tiles), Chain(nodes, i)[k]))
    && 0 <= nodes[i].costG <= PathCost(tiles, Chain(nodes, i), canTransform)
  }

  /** A node for cell `n` at G `t`, recorded as `n`'s new score, keeps every node covered. */
  lemma ExtendScoresCover(nodes: seq<AStarNode>, g: ScoreTable, node: AStarNode)
    requires ScoresCover(nodes, g)
    requires node.position !in g || node.costG < g[node.position]
    ensures ScoresCover(nodes + [node], g[node.position := node.costG])
  {
    var nodes', g' := nodes + [node], g[node.position := node.costG];
    forall i | 0 <= i < |nodes'| ensures CoveredAt(nodes', g', i) {
      if i < |nodes| {
        assert CoveredAt(nodes, g, i);
        assert nodes'[i] == nodes[i];
      }
    }
  }

  /** A child of node `c` whose extended chain is on the board and covers its G keeps every chain priced. */
  lemma ExtendChainsPriced(tiles: array2<TileType>, canTransform: bool, nodes: seq<AStarNode>, c: nat, node: AStarNode)
    requires WellFormed(nodes) && ChainsPriced(tiles, canTransform, nodes)
    requires c < |nodes| && node.id == |nodes| && node.parent == Some(c)
    requires forall k :: 0 <= k < |Chain(nodes, c) + [node.position]| ==>
      InBounds(SizeOf(tiles), (Chain(nodes, c) + [node.position])[k])
    requires 0 <= node.costG <= PathCost(tiles, Chain(nodes, c) + [node.position], canTransform)
    ensures WellFormed(nodes + [node]) && ChainsPriced(tiles, canTransform, nodes + [node])
  {
    var nodes' := nodes + [node];
    ExtendChains(nodes, c, node);
    forall i | 0 <= i < |nodes'| ensures PricedAt(tiles, canTransform, nodes', i) {
      if i < |nodes| {
        assert PricedAt(tiles, canTransform, nodes, i);
        assert nodes'[i] == nodes[i];
      }
    }
  }

  /** Every node's parent lies on the board, and every node's cell has a score no worse than its G. */
  lemma NodeFacts(tiles: array2<TileType>, canTransform: bool, start: Pos,
                  nodes: seq<AStarNode>, g: ScoreTable, c: nat)
    requires NodesAndScores(tiles, canTransform, start, nodes, g) && c < |nodes|
    ensures nodes[c].parent.Some? ==>
      nodes[c].parent.value < |nodes| && InBounds(SizeOf(tiles), nodes[nodes[c].parent.value].position)
    ensures nodes[c].position in g && g[nodes[c].position] <= nodes[c].costG
    ensures InBounds(SizeOf(tiles), start) ==> InBounds(SizeOf(tiles), nodes[c].position)
  {
    assert CoveredAt(nodes, g, c);
    if InBounds(SizeOf(tiles), start) {
      assert PricedAt(tiles, canTransform, nodes, c);
      ChainEnds(nodes, c);
    }
    if nodes[c].parent.Some? {
      assert c != 0 && |nodes| > 1;
      assert LinkedAt(tiles, canTransform, nodes, c);
    }
  }

  /** The open set is ordered and holds nodes of the arena. */
  ghost predicate OpenInArena(nodes: seq<AStarNode>, open: seq<AStarNode>) {
    && Sorted(open)
    && forall e :: e in open ==> e.id < |nodes| && nodes[e.id] == e
  }

  /** Appending a node whose parent is an existing node keeps the arena well formed. */
  lemma ExtendWellFormed(nodes: seq<AStarNode>, c: nat, node: AStarNode)
    requires WellFormed(nodes)
    requires c < |nodes| && node.id == |nodes| && node.parent == Some(c)
    ensures WellFormed(nodes + [node])
  {
  }

  /** Appending a child of node `c` leaves older chains as they were; the child's chain extends `c`'s. */
  lemma ExtendChains(nodes: seq<AStarNode>, c: nat, node: AStarNode)
    requires WellFormed(nodes)
    requires c < |nodes| && node.id == |nodes| && node.parent == Some(c)
    ensures WellFormed(nodes + [node])
    ensures forall i :: 0 <= i < |nodes| ==> Chain(nodes + [node], i) == Chain(nodes, i)
    ensures Chain(nodes + [node], |nodes|) == Chain(nodes, c) + [node.position]
  {
    ExtendWellFormed(nodes, c, node);
    forall i | 0 <= i < |nodes| ensures Chain(nodes + [node], i) == Chain(nodes, i) {
      ChainExtend(nodes, node, i);
    }
  }

  /** Appending a node reached by a legal step from node `c` keeps the arena linked. */
  lemma ExtendLinked(tiles: array2<TileType>, canTransform: bool, nodes: seq<AStarNode>, c: nat, node: AStarNode)
    requires Linked(tiles, canTransform, nodes)
    requires c < |nodes| && node.id == |nodes| && node.parent == Some(c)
    requires InBounds(SizeOf(tiles), nodes[c].position)
    requires node.position in Neighbours(tiles, nodes[c].position, canTransform)
    ensures Linked(tiles, canTransform, nodes + [node])
  {
    ExtendWellFormed(nodes, c, node);
    var nodes' := nodes + [node];
    forall i | 0 < i < |nodes'| ensures LinkedAt(tiles, canTransform, nodes', i) {
      if i < |nodes| {
        assert LinkedAt(tiles, canTransform, nodes, i);
        assert nodes'[i] == nodes[i] && nodes'[nodes[i].parent.value] == nodes[nodes[i].parent.value];
      } else {
        assert nodes'[c] == nodes[c];
      }
    }
  }

  /**
   * The chain to a new child of node `c` costs the chain to `c` plus the step
   * cost the search charged for entering the child.
   */
  lemma ExtendedChainCost(tiles: array2<TileType>, canTransform: bool, nodes: seq<AStarNode>, c: nat, n: Pos)
    requires Linked(tiles, canTransform, nodes) && c < |nodes|
    requires forall k :: 0 <= k < |Chain(nodes, c)| ==> InBounds(SizeOf(tiles), Chain(nodes, c)[k])
    requires InBounds(SizeOf(tiles), nodes[c].position) && InBounds(SizeOf(tiles), n)
    requires StepCost(canTransform, Tile(tiles, nodes[c].position), CameFrom(tiles, nodes, c), Tile(tiles, n)).Some?
    ensures forall k :: 0 <= k < |Chain(nodes, c) + [n]| ==> InBounds(SizeOf(tiles), (Chain(nodes, c) + [n])[k])
    ensures PathCost(tiles, Chain(nodes, c) + [n], canTransform) == PathCost(tiles, Chain(nodes, c), canTransform)
      + StepCost(canTransform, Tile(tiles, nodes[c].position), CameFrom(tiles, nodes, c), Tile(tiles, n)).value
  {
    var pc := Chain(nodes, c);
    var nc := pc + [n];
    ChainEnds(nodes, c);
    assert nc[..|nc| - 1] == pc;
    if c != 0 {
      assert LinkedAt(tiles, canTransform, nodes, c);
      assert nc[|nc| - 3] == nodes[nodes[c].parent.value].position;
    }
  }

  /**
   * One relaxation that writes a new score `t` for neighbour `n` of node `c`
   * and creates a node for it keeps the invariant.
   */
  lemma RelaxKeepsInvariant(tiles: array2<TileType>, canTransform: bool, start: Pos,
                            nodes: seq<AStarNode>, g: ScoreTable, c: nat, n: Pos, t: int, h: int)
    requires NodesAndScores(tiles, canTransform, start, nodes, g)
    requires c < |nodes| && InBounds(SizeOf(tiles), nodes[c].position) && nodes[c].position in g
    requires n in Neighbours(tiles, nodes[c].position, canTransform) && InBounds(SizeOf(tiles), n)
    requires StepCost(canTransform, Tile(tiles, nodes[c].position), CameFrom(tiles, nodes, c), Tile(tiles, n)).Some?
    requires t == g[nodes[c].position] + StepCost(canTransform, Tile(tiles, nodes[c].position), CameFrom(tiles, nodes, c), Tile(tiles, n)).value
    requires n !in g || t < g[n]
    ensures NodesAndScores(tiles, canTransform, start, nodes + [AStarNode(|nodes|, n, t, h, Some(c))], g[n := t])
  {
    var size := SizeOf(tiles);
    var node := AStarNode(|nodes|, n, t, h, Some(c));
    var nodes' := nodes + [node];
    var g' := g[n := t];
    NeighboursShape(tiles, nodes[c].position, canTransform);
    assert InBounds(size, start) by {
      if |nodes| == 1 { assert nodes[c] == nodes[0]; }
    }
    StepCostCases(canTransform, Tile(tiles, nodes[c].position), CameFrom(tiles, nodes, c), Tile(tiles, n));
    assert Tile(tiles, start) != Wall by {
      if |nodes| == 1 {
        assert c == 0 && nodes[c].position == start;
      }
    }
    assert PricedAt(tiles, canTransform, nodes, c) && CoveredAt(nodes, g, c);
    ExtendLinked(tiles, canTransform, nodes, c, node);
    ExtendedChainCost(tiles, canTransform, nodes, c, n);
    ExtendChainsPriced(tiles, canTransform, nodes, c, node);
    ExtendScoresCover(nodes, g, node);
  }

  /** A new node, with an id above every existing one, joins the open set as one more member. */
  lemma PushKeepsOpen(nodes: seq<AStarNode>, open: seq<AStarNode>, node: AStarNode)
    requires OpenInArena(nodes, open) && node.id == |nodes|
    ensures OpenInArena(nodes + [node], Add(open, node))
    ensures |Add(open, node)| <= |open| + 1
    ensures forall e :: e in Add(open, node) <==> e in open || e == node
  {
    assert !HasEqual(open, node) by {
      forall i | 0 <= i < |open| ensures Compare(open[i], node) != 0 {
        assert open[i] in open;
      }
    }
    AddKeepsOrder(open, node);
    AddMembers(open, node);
    forall e | e in Add(open, node) ensures e.id < |nodes + [node]| && (nodes + [node])[e.id] == e {
      if e != node { assert e in open; }
    }
  }

  /** Writing a smaller or new score for an in-bounds cell lowers the termination measure. */
  lemma ScoreWriteLowersMeasure(size: Pos, g: ScoreTable, n: Pos, t: int)
    requires 0 <= size.x && 0 <= size.y && InBounds(size, n)
    requires n !in g || t < g[n]
    ensures |Absent(size, g[n := t])| <= |Absent(size, g)|
    ensures |Absent(size, g[n := t])| == |Absent(size, g)| ==>
      n in g && Total(g[n := t], size.x, size.y) <= Total(g, size.x, size.y) - 1
  {
    AbsentShrinks(size, g, n, t);
    if n in g {
      TotalUpdate(g, size.x, size.y, n, t);
    } else {
      var a, a' := Absent(size, g), Absent(size, g[n := t]);
      assert a == a' + (a - a') && a' * (a - a') == {};
      assert n in a - a';
    }
  }

  /**
   * `history` lists the values the score table has taken, starting from the
   * start cell alone at 0 and ending at `g`; each follows from the previous
   * one by one improvement and all are non-negative.
   */
  ghost predicate Chronicle(history: seq<ScoreTable>, start: Pos, g: ScoreTable) {
    && |history| > 0 && history[0] == map[start := 0] && history[|history| - 1] == g
    && (forall j :: 0 < j < |history| ==> ImprovesAt(history, j))
    && (forall i :: 0 <= i < |history| ==> NonNegative(history[i]))
  }

  /** Entry `j` of a history follows from entry `j - 1` by one improvement. */
  ghost predicate ImprovesAt(history: seq<ScoreTable>, j: nat)
    requires 0 < j < |history|
  {
    Improvement(history[j - 1], history[j])
  }

  /** A chronicle starts at the start cell alone, and every entry is non-negative and improves on the one before. */
  lemma ChronicleFacts(history: seq<ScoreTable>, start: Pos, g: ScoreTable)
    requires Chronicle(history, start, g)
    ensures |history| > 0 && history[0] == map[start := 0] && history[|history| - 1] == g
    ensures forall i :: 0 < i < |history| ==> Improvement(history[i - 1], history[i])
    ensures forall i :: 0 <= i < |history| ==> NonNegative(history[i])
  {
    forall i | 0 < i < |history| ensures Improvement(history[i - 1], history[i]) {
      assert ImprovesAt(history, i);
    }
  }

  /** Recording a non-negative improving write extends the chronicle. */
  lemma ChronicleStep(history: seq<ScoreTable>, start: Pos, g: ScoreTable, n: Pos, t: int)
    requires Chronicle(history, start, g)
    requires t >= 0 && (n !in g || t < g[n])
    ensures Chronicle(history + [g[n := t]], start, g[n := t])
  {
    var g' := g[n := t];
    var h' := history + [g'];
    assert Improvement(g, g') by {
      assert n in g' && g' == g[n := g'[n]];
    }
    forall j | 0 < j < |h'| ensures ImprovesAt(h', j) {
      if j < |history| {
        assert ImprovesAt(history, j);
        assert h'[j - 1] == history[j - 1] && h'[j] == history[j];
      }
    }
    forall i | 0 <= i < |h'| ensures NonNegative(h'[i]) {
      if i < |history| { assert h'[i] == history[i]; }
    }
  }

  /** Every cell the search may step to from the in-bounds cell `p` has a score. */
  ghost predicate NeighboursScored(tiles: array2<TileType>, canTransform: bool, g: ScoreTable, p: Pos)
    reads tiles
    requires InBounds(SizeOf(tiles), p)
  {
    forall q :: q in Neighbours(tiles, p, canTransform) ==> q in g
  }

  /**
   * Cell `p`, when it is scored, on the board and not in `skip`, still has a
   * node in the open set or has had every neighbour scored.
   */
  ghost predicate ClosedAt(tiles: array2<TileType>, canTransform: bool, open: seq<AStarNode>, g: ScoreTable,
                           skip: set<Pos>, p: Pos)
    reads tiles
  {
    p in g && InBounds(SizeOf(tiles), p) && p !in skip ==>
      !NoneAt(open, p) || NeighboursScored(tiles, canTransform, g, p)
  }

  /**
   * What makes an exhausted search complete: every scored cell on the board
   * outside `skip` is waiting in the open set or has had all its neighbours
   * scored, and a scored end is waiting in the open set.
   */
  ghost predicate Covering(tiles: array2<TileType>, canTransform: bool, end: Pos, open: seq<AStarNode>,
                           g: ScoreTable, skip: set<Pos>)
    reads tiles
  {
    && (forall p :: ClosedAt(tiles, canTransform, open, g, skip, p))
    && (end in g && InBounds(SizeOf(tiles), end) ==> !NoneAt(open, end))
  }

  /**
   * Scoring cell `n` keeps every scored cell waiting or closed, provided no
   * open node is dropped and `n` has an open node afterwards whenever it had
   * none before (the engine pushes one exactly then).
   */
  lemma RelaxCovers(tiles: array2<TileType>, canTransform: bool, end: Pos, open: seq<AStarNode>,
                    open': seq<AStarNode>, g: ScoreTable, skip: set<Pos>, n: Pos, t: int)
    requires Covering(tiles, canTransform, end, open, g, skip)
    requires forall e :: e in open ==> e in open'
    requires NoneAt(open, n) ==> !NoneAt(open', n)
    ensures Covering(tiles, canTransform, end, open', g[n := t], skip)
  {
    var g' := g[n := t];
    forall p ensures ClosedAt(tiles, canTransform, open', g', skip, p) {
      if p in g' && InBounds(SizeOf(tiles), p) && p !in skip {
        if !NoneAt(open, p) {
          var e :| e in open && e.position == p;
          assert e in open';
        } else if p != n {
          assert ClosedAt(tiles, canTransform, open, g, skip, p);
          assert NeighboursScored(tiles, canTransform, g', p);
        }
      }
    }
    if end in g' && InBounds(SizeOf(tiles), end) && !NoneAt(open, end) {
      var e :| e in open && e.position == end;
      assert e in open';
    }
  }

  /**
   * Scoring the cell of a new node and pushing the node when no node for its
   * cell is open keeps every scored cell waiting or closed.
   */
  lemma PushCovers(tiles: array2<TileType>, canTransform: bool, end: Pos, nodes: seq<AStarNode>,
                   open: seq<AStarNode>, g: ScoreTable, skip: set<Pos>, node: AStarNode, isNew: bool)
    requires Covering(tiles, canTransform, end, open, g, skip)
    requires OpenInArena(nodes, open) && node.id == |nodes|
    requires isNew == NoneAt(open, node.position)
    ensures Covering(tiles, canTransform, end, if isNew then Add(open, node) else open,
                     g[node.position := node.costG], skip)
  {
    if isNew {
      PushKeepsOpen(nodes, open, node);
      assert node in Add(open, node);
    }
    RelaxCovers(tiles, canTransform, end, open, if isNew then Add(open, node) else open, g, skip,
                node.position, node.costG);
  }

  /** A node open at cell `p` other than the first one's stays open when the first is removed. */
  lemma StillOpen(open: seq<AStarNode>, p: Pos)
    requires |open| > 0 && open[0].position != p && !NoneAt(open, p)
    ensures !NoneAt(open[1..], p)
  {
    var i :| 0 <= i < |open| && open[i].position == p;
    assert open[1..][i - 1] == open[i];
  }

  /** Removing the first open node, not at the end, leaves only its own cell possibly uncovered. */
  lemma PoppedCovers(tiles: array2<TileType>, canTransform: bool, end: Pos, open: seq<AStarNode>, g: ScoreTable)
    requires Covering(tiles, canTransform, end, open, g, {}) && |open| > 0 && open[0].position != end
    ensures Covering(tiles, canTransform, end, open[1..], g, {open[0].position})
  {
    var skip := {open[0].position};
    forall p ensures ClosedAt(tiles, canTransform, open[1..], g, skip, p) {
      assert ClosedAt(tiles, canTransform, open, g, {}, p);
      if p in g && InBounds(SizeOf(tiles), p) && p !in skip && !NoneAt(open, p) {
        StillOpen(open, p);
      }
    }
    if end in g && InBounds(SizeOf(tiles), end) {
      StillOpen(open, end);
    }
  }

  /** Once all neighbours of the expanded cell `p` are scored, `p` is closed too. */
  lemma ExpandedCovers(tiles: array2<TileType>, canTransform: bool, end: Pos, open: seq<AStarNode>,
                       g: ScoreTable, p: Pos)
    requires Covering(tiles, canTransform, end, open, g, {p})
    requires InBounds(SizeOf(tiles), p) && NeighboursScored(tiles, canTransform, g, p)
    ensures Covering(tiles, canTransform, end, open, g, {})
  {
    forall q ensures ClosedAt(tiles, canTransform, open, g, {}, q) {
      assert ClosedAt(tiles, canTransform, open, g, {p}, q);
    }
  }

  /** No path leads from `start` to `end`, stepping as the search steps. */
  ghost predicate Unreachable(tiles: array2<TileType>, canTransform: bool, start: Pos, end: Pos)
    reads tiles
  {
    forall path :: !IsPath(tiles, path, canTransform, start, end)
  }

  /** The cells of a path from a scored start, over a table closed under stepping, are all scored. */
  lemma {:induction false} PathScored(tiles: array2<TileType>, canTransform: bool, g: ScoreTable,
                                      path: seq<Pos>, start: Pos, end: Pos, k: nat)
    requires IsPath(tiles, path, canTransform, start, end) && k < |path| && start in g
    requires forall p :: p in g && InBounds(SizeOf(tiles), p) ==> NeighboursScored(tiles, canTransform, g, p)
    ensures path[k] in g
    decreases k
  {
    if k > 0 {
      PathScored(tiles, canTransform, g, path, start, end, k - 1);
      assert NeighboursScored(tiles, canTransform, g, path[k - 1]);
    }
  }

  /**
   * A table that scores the start and in which every scored cell on the board
   * has all its neighbours scored contains every cell a path reaches; so if it
   * leaves the end unscored, no path leads from the start to the end.
   */
  lemma ClosedTableBlocks(tiles: array2<TileType>, canTransform: bool, g: ScoreTable, start: Pos, end: Pos)
    requires start in g && (InBounds(SizeOf(tiles), end) ==> end !in g)
    requires forall p :: p in g && InBounds(SizeOf(tiles), p) ==> NeighboursScored(tiles, canTransform, g, p)
    ensures Unreachable(tiles, canTransform, start, end)
  {
    forall path ensures IsPath(tiles, path, canTransform, start, end) ==> end in g {
      if IsPath(tiles, path, canTransform, start, end) {
        PathScored(tiles, canTransform, g, path, start, end, |path| - 1);
      }
    }
  }

  /**
   * What relaxing neighbour `q` of an expanded cell offers: the cell's score
   * `base` plus the cost of the step onto `q`. A step the engine cannot
   * evaluate offers `base`; the search never makes one.
   */
  function Offer(tiles: array2<TileType>, canTransform: bool, current: TileType, cameFrom: Option<TileType>,
                 base: int, q: Pos): (r: int)
    reads tiles
    requires InBounds(SizeOf(tiles), q)
    ensures base <= r <= base + 2
    ensures r == base + 2 <==> canTransform && Tile(tiles, q) == Wall
  {
    match StepCost(canTransform, current, cameFrom, Tile(tiles, q))
    case None => base
    case Some(s) => base + s
  }

  /**
   * `g'` is `g` after each cell of `ns` was offered its score: the keys gain
   * the cells of `ns`; such a cell keeps its score when that is no worse than
   * the offer and takes the offer otherwise; every other entry is unchanged.
   */
  ghost predicate Relaxed(tiles: array2<TileType>, canTransform: bool, current: TileType, cameFrom: Option<TileType>,
                          base: int, ns: seq<Pos>, g: ScoreTable, g': ScoreTable)
    reads tiles
    requires forall q :: q in ns ==> InBounds(SizeOf(tiles), q)
  {
    && (forall q :: q in g' <==> q in g || q in ns)
    && (forall q :: q in ns ==>
          g'[q] == var o := Offer(tiles, canTransform, current, cameFrom, base, q);
                   if q in g && g[q] <= o then g[q] else o)
    && (forall q :: q in g && q !in ns ==> g'[q] == g[q])
  }

  /**
   * Offering a cell not yet in `ns` its score, and writing it only when it is
   * new or strictly lower, extends a relaxed table by that cell.
   */
  lemma RelaxedStep(tiles: array2<TileType>, canTransform: bool, current: TileType, cameFrom: Option<TileType>,
                    base: int, ns: seq<Pos>, q: Pos, g: ScoreTable, g': ScoreTable, g'': ScoreTable)
    requires forall m :: m in ns ==> InBounds(SizeOf(tiles), m)
    requires InBounds(SizeOf(tiles), q) && q !in ns
    requires Relaxed(tiles, canTransform, current, cameFrom, base, ns, g, g')
    requires var o := Offer(tiles, canTransform, current, cameFrom, base, q);
      g'' == if q !in g' || o < g'[q] then g'[q := o] else g'
    ensures Relaxed(tiles, canTransform, current, cameFrom, base, ns + [q], g, g'')
  {
  }

  /** The neighbours of a cell are distinct and do not include the cell. */
  lemma NeighboursDistinct(tiles: array2<TileType>, pos: Pos, canTransform: bool)
    requires InBounds(SizeOf(tiles), pos)
    ensures pos !in Neighbours(tiles, pos, canTransform)
    ensures forall i, j :: 0 <= i < j < |Neighbours(tiles, pos, canTransform)| ==>
      Neighbours(tiles, pos, canTransform)[i] != Neighbours(tiles, pos, canTransform)[j]
  {
    NeighboursShape(tiles, pos, canTransform);
  }

  /** Node `k` is a child of node `c` at a cell of `done`, carrying that cell's offer as its G. */
  ghost predicate ChildAt(tiles: array2<TileType>, canTransform: bool, current: TileType, cameFrom: Option<TileType>,
                          base: int, done: seq<Pos>, nodes: seq<AStarNode>, c: nat, k: nat)
    reads tiles
    requires k < |nodes|
    requires forall q :: q in done ==> InBounds(SizeOf(tiles), q)
  {
    && nodes[k].parent == Some(c)
    && nodes[k].position in done
    && nodes[k].costG == Offer(tiles, canTransform, current, cameFrom, base, nodes[k].position)
  }

  /**
   * An expansion of node `c`, standing on a cell of tile `current` whose
   * parent's tile is `cameFrom` and whose score is `base`, once the
   * neighbours `done` were relaxed: the score table is `g` relaxed over
   * `done`; the arena grew only by children of `c` at cells of `done`, each
   * carrying its offer as its G; the history only grew; the open set lost
   * no node and gained only new ones; a new node is open exactly when no
   * node for its cell was open before the expansion; and a scored cell
   * without an open node was already scored, without an open node, before.
   */
  ghost predicate Relaxing(tiles: array2<TileType>, canTransform: bool, c: nat, current: TileType,
                           cameFrom: Option<TileType>, base: int, done: seq<Pos>,
                           nodes: seq<AStarNode>, open: seq<AStarNode>, g: ScoreTable, history: seq<ScoreTable>,
                           nodes': seq<AStarNode>, open': seq<AStarNode>, g': ScoreTable, history': seq<ScoreTable>)
    reads tiles
    requires forall q :: q in done ==> InBounds(SizeOf(tiles), q)
  {
    && Relaxed(tiles, canTransform, current, cameFrom, base, done, g, g')
    && |nodes| <= |nodes'| && nodes'[..|nodes|] == nodes
    && (forall k :: |nodes| <= k < |nodes'| ==> ChildAt(tiles, canTransform, current, cameFrom, base, done, nodes', c, k))
    && |history| <= |history'| && history'[..|history|] == history
    && Pushed(nodes, open, g, nodes', open', g')
  }

  /**
   * The open set during an expansion that began with arena `nodes`, open set
   * `open` and table `g`: it lost no node and gained only new ones; a new node
   * is open exactly when no node for its cell was open at the start; and a
   * scored cell without an open node was already scored, without one, at the
   * start. It is stated through `PushedAt` at the single point 0, which only
   * `PushedFacts` and `RelaxingPush` unfold.
   */
  ghost predicate Pushed(nodes: seq<AStarNode>, open: seq<AStarNode>, g: ScoreTable,
                         nodes': seq<AStarNode>, open': seq<AStarNode>, g': ScoreTable)
  {
    forall point: nat | point == 0 :: PushedAt(nodes, open, g, nodes', open', g', point)
  }

  /** The parts of `Pushed`. */
  ghost predicate PushedAt(nodes: seq<AStarNode>, open: seq<AStarNode>, g: ScoreTable,
                           nodes': seq<AStarNode>, open': seq<AStarNode>, g': ScoreTable, point: nat)
  {
    && (forall e :: e in open ==> e in open')
    && (forall e :: e in open' ==> e in open || e.id >= |nodes|)
    && (forall k :: |nodes| <= k < |nodes'| ==> (nodes'[k] in open' <==> NoneAt(open, nodes'[k].position)))
    && (forall q :: q in g' && NoneAt(open', q) ==> q in g && NoneAt(open, q))
  }

  /** What `Pushed` says. */
  lemma PushedFacts(nodes: seq<AStarNode>, open: seq<AStarNode>, g: ScoreTable,
                    nodes': seq<AStarNode>, open': seq<AStarNode>, g': ScoreTable)
    requires Pushed(nodes, open, g, nodes', open', g')
    ensures forall e :: e in open ==> e in open'
    ensures forall e :: e in open' ==> e in open || e.id >= |nodes|
    ensures forall k :: |nodes| <= k < |nodes'| ==> (nodes'[k] in open' <==> NoneAt(open, nodes'[k].position))
    ensures forall q :: q in g' && NoneAt(open', q) ==> q in g && NoneAt(open, q)
  {
    assert PushedAt(nodes, open, g, nodes', open', g', 0);
  }

  /** Appending nodes to the arena does not change the tile node `c` was reached from. */
  lemma CameFromKept(tiles: array2<TileType>, nodes: seq<AStarNode>, nodes': seq<AStarNode>, c: nat)
    requires WellFormed(nodes) && c < |nodes| <= |nodes'| && nodes'[..|nodes|] == nodes
    ensures CameFrom(tiles, nodes', c) == CameFrom(tiles, nodes, c)
  {
    assert nodes'[c] == nodes[c];
    if nodes[c].parent.Some? {
      assert nodes'[nodes[c].parent.value] == nodes[nodes[c].parent.value];
    }
  }

  /** The next cell of a list of distinct cells is new to the prefix before it, which it extends. */
  lemma NextNeighbour(ns: seq<Pos>, i: nat)
    requires i < |ns| && forall a, b :: 0 <= a < b < |ns| ==> ns[a] != ns[b]
    ensures ns[i] in ns && ns[i] !in ns[..i] && ns[..i + 1] == ns[..i] + [ns[i]]
  {
  }

  /** Nothing relaxed yet: the state is the one the expansion started from. */
  lemma RelaxingBegins(tiles: array2<TileType>, canTransform: bool, c: nat, current: TileType,
                       cameFrom: Option<TileType>, base: int,
                       nodes: seq<AStarNode>, open: seq<AStarNode>, g: ScoreTable, history: seq<ScoreTable>)
    ensures Relaxing(tiles, canTransform, c, current, cameFrom, base, [], nodes, open, g, history, nodes, open, g, history)
  {
    assert nodes[..|nodes|] == nodes && history[..|history|] == history;
    assert PushedAt(nodes, open, g, nodes, open, g, 0);
  }

  /**
   * Relaxing neighbour `q` with an improving write of its offer `t`, a new
   * child node, and a push when no node for `q` is open, extends the
   * expansion by `q`.
   */
  lemma RelaxingWrite(tiles: array2<TileType>, canTransform: bool, c: nat, current: TileType,
                      cameFrom: Option<TileType>, base: int, done: seq<Pos>, q: Pos,
                      nodes: seq<AStarNode>, open: seq<AStarNode>, g: ScoreTable, history: seq<ScoreTable>,
                      nodes': seq<AStarNode>, open': seq<AStarNode>, g': ScoreTable, history': seq<ScoreTable>,
                      t: int, h: int, isNew: bool)
    requires forall m :: m in done ==> InBounds(SizeOf(tiles), m)
    requires InBounds(SizeOf(tiles), q) && q !in done
    requires Relaxing(tiles, canTransform, c, current, cameFrom, base, done,
                      nodes, open, g, history, nodes', open', g', history')
    requires WellFormed(nodes') && OpenInArena(nodes', open') && isNew == NoneAt(open', q)
    requires t == Offer(tiles, canTransform, current, cameFrom, base, q)
    requires q !in g' || t < g'[q]
    ensures var node := AStarNode(|nodes'|, q, t, h, Some(c));
      Relaxing(tiles, canTransform, c, current, cameFrom, base, done + [q],
               nodes, open, g, history,
               nodes' + [node], if isNew then Add(open', node) else open', g'[q := t], history' + [g'[q := t]])
  {
    var node := AStarNode(|nodes'|, q, t, h, Some(c));
    var nodes'' := nodes' + [node];
    var done' := done + [q];
    RelaxedStep(tiles, canTransform, current, cameFrom, base, done, q, g, g', g'[q := t]);
    assert nodes''[..|nodes|] == nodes'[..|nodes|];
    forall k | |nodes| <= k < |nodes''|
      ensures ChildAt(tiles, canTransform, current, cameFrom, base, done', nodes'', c, k)
    {
      if k < |nodes'| {
        assert ChildAt(tiles, canTransform, current, cameFrom, base, done, nodes', c, k);
        assert nodes''[k] == nodes'[k];
      }
    }
    assert (history' + [g'[q := t]])[..|history|] == history'[..|history|];
    RelaxingPush(tiles, canTransform, c, current, cameFrom, base, done, q,
                 nodes, open, g, history, nodes', open', g', history', node, isNew);
  }

  /** `Pushed` survives scoring `q` and pushing its new node exactly when no node is open at `q`. */
  lemma RelaxingPush(tiles: array2<TileType>, canTransform: bool, c: nat, current: TileType,
                     cameFrom: Option<TileType>, base: int, done: seq<Pos>, q: Pos,
                     nodes: seq<AStarNode>, open: seq<AStarNode>, g: ScoreTable, history: seq<ScoreTable>,
                     nodes': seq<AStarNode>, open': seq<AStarNode>, g': ScoreTable, history': seq<ScoreTable>,
                     node: AStarNode, isNew: bool)
    requires forall m :: m in done ==> InBounds(SizeOf(tiles), m)
    requires Relaxing(tiles, canTransform, c, current, cameFrom, base, done,
                      nodes, open, g, history, nodes', open', g', history')
    requires WellFormed(nodes') && OpenInArena(nodes', open')
    requires node.id == |nodes'| && node.position == q && q !in done && isNew == NoneAt(open', q)
    ensures Pushed(nodes, open, g, nodes' + [node], if isNew then Add(open', node) else open', g'[q := node.costG])
  {
    forall k | |nodes| <= k < |nodes'| ensures nodes'[k].position in done {
      assert ChildAt(tiles, canTransform, current, cameFrom, base, done, nodes', c, k);
    }
    PushedStep(done, q, nodes, open, g, nodes', open', g', node, isNew);
  }

  /**
   * `Pushed` survives scoring `q`, which is not among the cells `done` that
   * the new nodes sit at, and pushing its new node exactly when no node is
   * open at `q`.
   */
  lemma PushedStep(done: seq<Pos>, q: Pos, nodes: seq<AStarNode>, open: seq<AStarNode>, g: ScoreTable,
                   nodes': seq<AStarNode>, open': seq<AStarNode>, g': ScoreTable, node: AStarNode, isNew: bool)
    requires Pushed(nodes, open, g, nodes', open', g')
    requires WellFormed(nodes') && OpenInArena(nodes', open') && |nodes| <= |nodes'|
    requires forall k :: |nodes| <= k < |nodes'| ==> nodes'[k].position in done
    requires node.id == |nodes'| && node.position == q && q !in done && isNew == NoneAt(open', q)
    ensures Pushed(nodes, open, g, nodes' + [node], if isNew then Add(open', node) else open', g'[q := node.costG])
  {
    PushedFacts(nodes, open, g, nodes', open', g');
    PushWhenNone(done, q, nodes, open, g, nodes', open', g', node, isNew);
  }

  /**
   * The push rule of an expansion: after scoring `q`, which is not among the
   * cells `done` already relaxed, and pushing its new node `node` exactly when
   * no node for `q` is open, each new node is open exactly when no node for
   * its cell was open before the expansion, and every scored cell without an
   * open node was scored, without one, before.
   */
  lemma PushWhenNone(done: seq<Pos>, q: Pos, nodes: seq<AStarNode>, open: seq<AStarNode>, g: ScoreTable,
                     nodes': seq<AStarNode>, open': seq<AStarNode>, g': ScoreTable, node: AStarNode, isNew: bool)
    requires WellFormed(nodes') && OpenInArena(nodes', open') && |nodes| <= |nodes'|
    requires node.id == |nodes'| && node.position == q && q !in done
    requires isNew == NoneAt(open', q)
    requires forall e :: e in open ==> e in open'
    requires forall e :: e in open' ==> e in open || e.id >= |nodes|
    requires forall k :: |nodes| <= k < |nodes'| ==> nodes'[k].position in done
    requires forall k :: |nodes| <= k < |nodes'| ==> (nodes'[k] in open' <==> NoneAt(open, nodes'[k].position))
    requires forall r :: r in g' && NoneAt(open', r) ==> r in g && NoneAt(open, r)
    ensures Pushed(nodes, open, g, nodes' + [node], if isNew then Add(open', node) else open', g'[q := node.costG])
  {
    var open'' := if isNew then Add(open', node) else open';
    OpenGrows(nodes, open, nodes', open', node, isNew);
    NoOtherOpenAt(done, q, nodes, open, nodes', open');
    NewNodesOpen(nodes, open, nodes', open', open'', node, isNew);
    AnchoredAfterPush(q, open, g, open', g', open'', node, isNew);
    PushedIntro(nodes, open, g, nodes' + [node], open'', g'[q := node.costG]);
  }

  /** Pushing a node with a fresh id, or not, keeps every open node and adds at most that node. */
  lemma OpenGrows(nodes: seq<AStarNode>, open: seq<AStarNode>, nodes': seq<AStarNode>, open': seq<AStarNode>,
                  node: AStarNode, isNew: bool)
    requires OpenInArena(nodes', open') && |nodes| <= |nodes'| && node.id == |nodes'|
    requires forall e :: e in open ==> e in open'
    requires forall e :: e in open' ==> e in open || e.id >= |nodes|
    ensures node !in open'
    ensures var open'' := if isNew then Add(open', node) else open';
      && (forall e :: e in open'' <==> e in open' || (isNew && e == node))
      && (forall e :: e in open ==> e in open'')
      && (forall e :: e in open'' ==> e in open || e.id >= |nodes|)
  {
    if isNew {
      PushKeepsOpen(nodes', open', node);
    }
    forall e | e in open' ensures e != node {
      assert e.id < |nodes'|;
    }
  }

  /** The four facts of `Pushed`, put together. */
  lemma PushedIntro(nodes: seq<AStarNode>, open: seq<AStarNode>, g: ScoreTable,
                    nodes': seq<AStarNode>, open': seq<AStarNode>, g': ScoreTable)
    requires forall e :: e in open ==> e in open'
    requires forall e :: e in open' ==> e in open || e.id >= |nodes|
    requires forall k :: |nodes| <= k < |nodes'| ==> (nodes'[k] in open' <==> NoneAt(open, nodes'[k].position))
    requires forall q :: q in g' && NoneAt(open', q) ==> q in g && NoneAt(open, q)
    ensures Pushed(nodes, open, g, nodes', open', g')
  {
    assert PushedAt(nodes, open, g, nodes', open', g', 0);
  }

  /** Nodes opened during an expansion sit at cells of `done`, so none sits at `q`. */
  lemma NoOtherOpenAt(done: seq<Pos>, q: Pos, nodes: seq<AStarNode>, open: seq<AStarNode>,
                      nodes': seq<AStarNode>, open': seq<AStarNode>)
    requires OpenInArena(nodes', open') && q !in done
    requires forall e :: e in open ==> e in open'
    requires forall e :: e in open' ==> e in open || e.id >= |nodes|
    requires forall k :: |nodes| <= k < |nodes'| ==> nodes'[k].position in done
    ensures NoneAt(open', q) == NoneAt(open, q)
  {
    forall e | e in open' && e.position == q ensures e in open {
      assert e.id < |nodes'| && nodes'[e.id] == e;
    }
  }

  /** After the push, a new node is open exactly when no node for its cell was open before the expansion. */
  lemma NewNodesOpen(nodes: seq<AStarNode>, open: seq<AStarNode>, nodes': seq<AStarNode>, open': seq<AStarNode>,
                     open'': seq<AStarNode>, node: AStarNode, isNew: bool)
    requires WellFormed(nodes') && |nodes| <= |nodes'| && node.id == |nodes'| && node !in open'
    requires isNew == NoneAt(open, node.position)
    requires forall e :: e in open'' <==> e in open' || (isNew && e == node)
    requires forall k :: |nodes| <= k < |nodes'| ==> (nodes'[k] in open' <==> NoneAt(open, nodes'[k].position))
    ensures forall k :: |nodes| <= k < |nodes' + [node]| ==>
      ((nodes' + [node])[k] in open'' <==> NoneAt(open, (nodes' + [node])[k].position))
  {
    var nodes'' := nodes' + [node];
    forall k | |nodes| <= k < |nodes''|
      ensures nodes''[k] in open'' <==> NoneAt(open, nodes''[k].position)
    {
      if k < |nodes'| {
        assert nodes''[k] == nodes'[k] && nodes'[k].id == k;
      }
    }
  }

  /** After scoring `q` and pushing its node when none was open, every scored cell without an open node was so before. */
  lemma AnchoredAfterPush(q: Pos, open: seq<AStarNode>, g: ScoreTable, open': seq<AStarNode>, g': ScoreTable,
                          open'': seq<AStarNode>, node: AStarNode, isNew: bool)
    requires node.position == q && isNew == NoneAt(open', q)
    requires forall e :: e in open'' <==> e in open' || (isNew && e == node)
    requires forall r :: r in g' && NoneAt(open', r) ==> r in g && NoneAt(open, r)
    ensures forall r :: r in g'[q := node.costG] && NoneAt(open'', r) ==> r in g && NoneAt(open, r)
  {
    if isNew {
      assert node in open'';
    }
  }

  /** Relaxing neighbour `q` without an improvement extends the expansion by `q` and changes nothing. */
  lemma RelaxingSkip(tiles: array2<TileType>, canTransform: bool, c: nat, current: TileType,
                     cameFrom: Option<TileType>, base: int, done: seq<Pos>, q: Pos,
                     nodes: seq<AStarNode>, open: seq<AStarNode>, g: ScoreTable, history: seq<ScoreTable>,
                     nodes': seq<AStarNode>, open': seq<AStarNode>, g': ScoreTable, history': seq<ScoreTable>)
    requires forall m :: m in done ==> InBounds(SizeOf(tiles), m)
    requires InBounds(SizeOf(tiles), q) && q !in done
    requires Relaxing(tiles, canTransform, c, current, cameFrom, base, done,
                      nodes, open, g, history, nodes', open', g', history')
    requires q in g' && g'[q] <= Offer(tiles, canTransform, current, cameFrom, base, q)
    ensures Relaxing(tiles, canTransform, c, current, cameFrom, base, done + [q],
                     nodes, open, g, history, nodes', open', g', history')
  {
    RelaxedStep(tiles, canTransform, current, cameFrom, base, done, q, g, g', g');
    forall k | |nodes| <= k < |nodes'|
      ensures ChildAt(tiles, canTransform, current, cameFrom, base, done + [q], nodes', c, k)
    {
      assert ChildAt(tiles, canTransform, current, cameFrom, base, done, nodes', c, k);
    }
  }

  /**
   * The search's invariant: the arena and score table, the open set and the
   * score history agree. Beyond the shape of the arena and the open set, it
   * is stated through `SearchAt` at the single point 0, so that the solver
   * unfolds it only where `SearchUnpacked` or `SearchPacked` names that
   * point; this keeps the proofs of the search loops small.
   */
  ghost predicate Search(tiles: array2<TileType>, canTransform: bool, start: Pos, nodes: seq<AStarNode>,
                         open: seq<AStarNode>, g: ScoreTable, history: seq<ScoreTable>)
    reads tiles
  {
    && WellFormed(nodes)
    && OpenInArena(nodes, open)
    && |history| > 0
    && forall point: nat | point == 0 :: SearchAt(tiles, canTransform, start, nodes, open, g, history, point)
  }

  /** The remaining parts of the search's invariant. */
  ghost predicate SearchAt(tiles: array2<TileType>, canTransform: bool, start: Pos, nodes: seq<AStarNode>,
                           open: seq<AStarNode>, g: ScoreTable, history: seq<ScoreTable>, point: nat)
    reads tiles
  {
    && NodesAndScores(tiles, canTransform, start, nodes, g)
    && Chronicle(history, start, g)
  }

  lemma SearchUnpacked(tiles: array2<TileType>, canTransform: bool, start: Pos, nodes: seq<AStarNode>,
                       open: seq<AStarNode>, g: ScoreTable, history: seq<ScoreTable>)
    requires Search(tiles, canTransform, start, nodes, open, g, history)
    ensures NodesAndScores(tiles, canTransform, start, nodes, g)
    ensures OpenInArena(nodes, open)
    ensures Chronicle(history, start, g)
  {
    assert SearchAt(tiles, canTransform, start, nodes, open, g, history, 0);
  }

  lemma SearchPacked(tiles: array2<TileType>, canTransform: bool, start: Pos, nodes: seq<AStarNode>,
                     open: seq<AStarNode>, g: ScoreTable, history: seq<ScoreTable>)
    requires NodesAndScores(tiles, canTransform, start, nodes, g)
    requires OpenInArena(nodes, open)
    requires Chronicle(history, start, g)
    ensures Search(tiles, canTransform, start, nodes, open, g, history)
  {
    assert SearchAt(tiles, canTransform, start, nodes, open, g, history, 0);
  }

  /** The search begins with the start node alone, open, at score 0. */
  lemma SearchBegins(tiles: array2<TileType>, canTransform: bool, start: Pos)
    ensures var root := AStarNode(0, start, 0, 0, None);
      Search(tiles, canTransform, start, [root], Add([], root), map[start := 0], [map[start := 0]])
  {
    var root := AStarNode(0, start, 0, 0, None);
    var g := map[start := 0];
    assert CoveredAt([root], g, 0);
    if InBounds(SizeOf(tiles), start) {
      assert PricedAt(tiles, canTransform, [root], 0) by {
        assert Chain([root], 0) == [start];
      }
    }
    SearchPacked(tiles, canTransform, start, [root], Add([], root), g, [g]);
  }

  /** Popping the first open node keeps the invariant. */
  lemma SearchPopped(tiles: array2<TileType>, canTransform: bool, start: Pos, nodes: seq<AStarNode>,
                     open: seq<AStarNode>, g: ScoreTable, history: seq<ScoreTable>)
    requires Search(tiles, canTransform, start, nodes, open, g, history) && |open| > 0
    ensures Search(tiles, canTransform, start, nodes, open[1..], g, history)
  {
    SearchUnpacked(tiles, canTransform, start, nodes, open, g, history);
    forall e | e in open[1..] ensures e.id < |nodes| && nodes[e.id] == e {
      assert e in open;
    }
    SearchPacked(tiles, canTransform, start, nodes, open[1..], g, history);
  }

  /** What the invariant says of node `c` and of the score history. */
  lemma SearchFacts(tiles: array2<TileType>, canTransform: bool, start: Pos, nodes: seq<AStarNode>,
                    open: seq<AStarNode>, g: ScoreTable, history: seq<ScoreTable>, c: nat)
    requires Search(tiles, canTransform, start, nodes, open, g, history) && c < |nodes|
    ensures WellFormed(nodes) && nodes[0].position == start
    ensures nodes[c].parent.Some? ==>
      nodes[c].parent.value < |nodes| && InBounds(SizeOf(tiles), nodes[nodes[c].parent.value].position)
    ensures nodes[c].parent.None? ==> c == 0
    ensures nodes[c].position in g && g[nodes[c].position] <= nodes[c].costG && NonNegative(g)
    ensures InBounds(SizeOf(tiles), start) ==> InBounds(SizeOf(tiles), nodes[c].position)
    ensures !InBounds(SizeOf(tiles), start) ==> |nodes| == 1
    ensures |nodes| > 1 ==> Tile(tiles, start) != Wall
    ensures forall e :: e in open ==> e.id < |nodes| && nodes[e.id] == e
    ensures |history| > 0 && history[0] == map[start := 0] && history[|history| - 1] == g
    ensures forall i :: 0 < i < |history| ==> Improvement(history[i - 1], history[i])
    ensures forall i :: 0 <= i < |history| ==> NonNegative(history[i])
  {
    SearchUnpacked(tiles, canTransform, start, nodes, open, g, history);
    NodeFacts(tiles, canTransform, start, nodes, g, c);
    ChronicleFacts(history, start, g);
  }

  /**
   * One improving write for neighbour `n` of node `c`: the score becomes `t`,
   * a child node of `c` is appended to the arena and, when `isNew` (no node
   * for that cell is open), it joins the open set. The invariant survives and
   * the termination measure does not grow.
   */
  lemma RelaxStep(tiles: array2<TileType>, canTransform: bool, start: Pos, nodes: seq<AStarNode>,
                  open: seq<AStarNode>, g: ScoreTable, history: seq<ScoreTable>, c: nat, n: Pos, t: int, h: int,
                  isNew: bool)
    requires Search(tiles, canTransform, start, nodes, open, g, history)
    requires c < |nodes| && InBounds(SizeOf(tiles), nodes[c].position) && nodes[c].position in g
    requires n in Neighbours(tiles, nodes[c].position, canTransform) && InBounds(SizeOf(tiles), n)
    requires StepCost(canTransform, Tile(tiles, nodes[c].position), CameFrom(tiles, nodes, c), Tile(tiles, n)).Some?
    requires t == g[nodes[c].position]
      + StepCost(canTransform, Tile(tiles, nodes[c].position), CameFrom(tiles, nodes, c), Tile(tiles, n)).value
    requires n !in g || t < g[n]
    requires isNew == NoneAt(open, n)
    ensures var node := AStarNode(|nodes|, n, t, h, Some(c));
      Search(tiles, canTransform, start, nodes + [node], if isNew then Add(open, node) else open,
             g[n := t], history + [g[n := t]])
    ensures |Absent(SizeOf(tiles), g[n := t])| <= |Absent(SizeOf(tiles), g)|
    ensures |Absent(SizeOf(tiles), g[n := t])| == |Absent(SizeOf(tiles), g)| ==>
      2 * Total(g[n := t], SizeOf(tiles).x, SizeOf(tiles).y)
        + |if isNew then Add(open, AStarNode(|nodes|, n, t, h, Some(c))) else open|
      <= 2 * Total(g, SizeOf(tiles).x, SizeOf(tiles).y) + |open|
  {
    var node := AStarNode(|nodes|, n, t, h, Some(c));
    var nodes' := nodes + [node];
    SearchUnpacked(tiles, canTransform, start, nodes, open, g, history);
    NeighboursShape(tiles, nodes[c].position, canTransform);
    ScoreWriteLowersMeasure(SizeOf(tiles), g, n, t);
    RelaxKeepsInvariant(tiles, canTransform, start, nodes, g, c, n, t, h);
    NodeFacts(tiles, canTransform, start, nodes, g, c);
    ChronicleStep(history, start, g, n, t);
    if isNew {
      PushKeepsOpen(nodes, open, node);
    } else {
      forall e | e in open ensures e.id < |nodes'| && nodes'[e.id] == e {
        assert e.id < |nodes| && nodes[e.id] == e;
      }
    }
    SearchPacked(tiles, canTransform, start, nodes', if isNew then Add(open, node) else open, g[n := t], history + [g[n := t]]);
  }

  /** The node popped at the end cell carries a path from the start, a cost within that path's, and the final score. */
  lemma ReachedEnd(tiles: array2<TileType>, canTransform: bool, start: Pos, end: Pos, nodes: seq<AStarNode>,
                   open: seq<AStarNode>, g: ScoreTable, history: seq<ScoreTable>, c: nat)
    requires Search(tiles, canTransform, start, nodes, open, g, history)
    requires c < |nodes| && nodes[c].position == end && InBounds(SizeOf(tiles), end)
    ensures IsPath(tiles, Chain(nodes, c), canTransform, start, end)
    ensures 0 <= nodes[c].costG <= PathCost(tiles, Chain(nodes, c), canTransform)
    ensures |Chain(nodes, c)| > 1 ==> Tile(tiles, start) != Wall
    ensures end in history[|history| - 1] && history[|history| - 1][end] <= nodes[c].costG
  {
    SearchUnpacked(tiles, canTransform, start, nodes, open, g, history);
    NodeFacts(tiles, canTransform, start, nodes, g, c);
    assert InBounds(SizeOf(tiles), start) by {
      if |nodes| == 1 { assert nodes[c] == nodes[0]; }
    }
    assert PricedAt(tiles, canTransform, nodes, c);
    ChainIsPath(tiles, canTransform, nodes, c);
    ChainEnds(nodes, c);
  }

  /**
   * What a search from `start` to `end` promises of its outcome `r`:
   * - it raises IndexOutOfRangeException exactly when the start is off the
   *   board, and NullReferenceException exactly when the start is a wall,
   *   differs from the end and has a neighbour (the parentless start node is
   *   expanded in wall mode);
   * - a returned path is empty exactly when the cost is -1; a non-empty one
   *   is a path from the start to the end whose cost is between 0 and the
   *   path's cost, and only a start that is not a wall leads anywhere;
   * - when the start is the end, the answer is that cell alone, free, after
   *   no iterations.
   */
  predicate Answered(tiles: array2<TileType>, canTransform: bool, start: Pos, end: Pos, r: Outcome)
    reads tiles
  {
    && (r == Threw(IndexOutOfRangeException) <==> !InBounds(SizeOf(tiles), start))
    && (r == Threw(NullReferenceException) <==>
          InBounds(SizeOf(tiles), start) && start != end && Tile(tiles, start) == Wall
          && Neighbours(tiles, start, canTransform) != [])
    && (r.Returned? ==> (r.result.path == [] <==> r.result.cost == -1))
    && (r.Returned? && r.result.path != [] ==>
          && IsPath(tiles, r.result.path, canTransform, start, end)
          && 0 <= r.result.cost <= PathCost(tiles, r.result.path, canTransform))
    && (r.Returned? && |r.result.path| > 1 ==> Tile(tiles, start) != Wall)
    && (InBounds(SizeOf(tiles), start) && start == end ==> r == Returned(SearchResult([start], 0, 0)))
  }

  /**
   * What a search promises of the cells it expanded and of the values its
   * score table took: the table starts with the start alone at 0, only
   * improves and stays non-negative. When it returns, the iteration count is
   * the number of neighbours of the expanded cells, and every expanded cell
   * and all its neighbours are scored in the final table; when the start is
   * on the board and is not the end, the start is the first cell expanded; a
   * found path ends at a cell scored no worse than the returned cost; after
   * exhaustion the final table scores the start, leaves the end unscored,
   * every scored cell on the board was expanded, and every scored cell on the
   * board has all its neighbours scored.
   */
  ghost predicate Recorded(tiles: array2<TileType>, canTransform: bool, start: Pos, end: Pos, r: Outcome,
                           expanded: seq<Pos>, history: seq<ScoreTable>)
    reads tiles
  {
    && |history| > 0 && history[0] == map[start := 0]
    && (forall i :: 0 < i < |history| ==> Improvement(history[i - 1], history[i]))
    && (forall i :: 0 <= i < |history| ==> NonNegative(history[i]))
    && (r.Returned? ==>
          && (forall k :: 0 <= k < |expanded| ==> InBounds(SizeOf(tiles), expanded[k]))
          && r.result.iterations == NeighbourCount(tiles, expanded, canTransform)
          && (forall k :: 0 <= k < |expanded| ==>
                expanded[k] in history[|history| - 1]
                && NeighboursScored(tiles, canTransform, history[|history| - 1], expanded[k])))
    && (r.Returned? && InBounds(SizeOf(tiles), start) && start != end ==> |expanded| > 0 && expanded[0] == start)
    && (r.Returned? && r.result.path != [] ==>
          end in history[|history| - 1] && history[|history| - 1][end] <= r.result.cost)
    && (r.Returned? && r.result.path == [] ==>
          && start in history[|history| - 1]
          && (InBounds(SizeOf(tiles), end) ==> end !in history[|history| - 1])
          && (forall p :: p in history[|history| - 1] && InBounds(SizeOf(tiles), p) ==> p in expanded)
          && (forall p :: p in history[|history| - 1] && InBounds(SizeOf(tiles), p) ==>
                NeighboursScored(tiles, canTransform, history[|history| - 1], p)))
  }

  /**
   * The search loop's invariant: the search invariant, the expanded cells
   * lie on the board and, through `TallyAt` at the single point 0, the
   * iteration count, the cells closed so far and the special starts.
   */
  ghost predicate Running(tiles: array2<TileType>, canTransform: bool, start: Pos, end: Pos,
                          nodes: seq<AStarNode>, open: seq<AStarNode>, g: ScoreTable, history: seq<ScoreTable>,
                          expanded: seq<Pos>, iterations: nat)
    reads tiles
  {
    && Search(tiles, canTransform, start, nodes, open, g, history)
    && (forall k :: 0 <= k < |expanded| ==> InBounds(SizeOf(tiles), expanded[k]))
    && forall point: nat | point == 0 ::
         TallyAt(tiles, canTransform, start, end, nodes, open, g, expanded, iterations, point)
  }

  /**
   * The iteration count is the number of neighbours of the expanded cells;
   * every expanded cell and all its neighbours are scored; every scored cell
   * is waiting in the open set or closed, and a scored end is waiting; every
   * scored cell on the board without an open node was expanded; while the
   * start is off the board, equals the end, or is a wall with a neighbour,
   * the start node is alone in the open set and in the arena; and while the
   * start, on the board and not the end, is unexpanded, its node is alone in
   * the open set, and once expanded it is the first cell expanded.
   */
  ghost predicate TallyAt(tiles: array2<TileType>, canTransform: bool, start: Pos, end: Pos,
                          nodes: seq<AStarNode>, open: seq<AStarNode>, g: ScoreTable, expanded: seq<Pos>,
                          iterations: nat, point: nat)
    reads tiles
    requires |nodes| > 0
    requires forall k :: 0 <= k < |expanded| ==> InBounds(SizeOf(tiles), expanded[k])
  {
    && iterations == NeighbourCount(tiles, expanded, canTransform)
    && (forall k :: 0 <= k < |expanded| ==>
          expanded[k] in g && NeighboursScored(tiles, canTransform, g, expanded[k]))
    && Covering(tiles, canTransform, end, open, g, {})
    && (forall p :: p in g && InBounds(SizeOf(tiles), p) && NoneAt(open, p) ==> p in expanded)
    && (InBounds(SizeOf(tiles), start) && start != end ==>
          && (|expanded| == 0 ==> |open| == 1 && open[0] == nodes[0])
          && (|expanded| > 0 ==> expanded[0] == start))
    && ((!InBounds(SizeOf(tiles), start) || start == end) ==>
          |open| == 1 && open[0] == nodes[0] && iterations == 0)
    && (InBounds(SizeOf(tiles), start) && start != end && Tile(tiles, start) == Wall
        && Neighbours(tiles, start, canTransform) != [] ==>
          |open| == 1 && open[0] == nodes[0] && |nodes| == 1)
  }

  /** The search loop starts with the start node alone and nothing expanded. */
  lemma RunningBegins(tiles: array2<TileType>, canTransform: bool, start: Pos, end: Pos)
    ensures var root := AStarNode(0, start, 0, 0, None);
      Running(tiles, canTransform, start, end, [root], Add([], root), map[start := 0], [map[start := 0]], [], 0)
  {
    var root := AStarNode(0, start, 0, 0, None);
    var g := map[start := 0];
    SearchBegins(tiles, canTransform, start);
    assert !NoneAt([root], start);
    forall p ensures ClosedAt(tiles, canTransform, [root], g, {}, p) {
    }
    assert TallyAt(tiles, canTransform, start, end, [root], Add([], root), g, [], 0, 0);
  }

  /** A node popped off the board ends the search with IndexOutOfRangeException. */
  lemma OffBoardAnswer(tiles: array2<TileType>, canTransform: bool, start: Pos, end: Pos,
                       nodes: seq<AStarNode>, open: seq<AStarNode>, g: ScoreTable, history: seq<ScoreTable>,
                       expanded: seq<Pos>, iterations: nat)
    requires Running(tiles, canTransform, start, end, nodes, open, g, history, expanded, iterations)
    requires |open| > 0 && !InBounds(SizeOf(tiles), open[0].position)
    ensures Answered(tiles, canTransform, start, end, Threw(IndexOutOfRangeException))
    ensures Recorded(tiles, canTransform, start, end, Threw(IndexOutOfRangeException), expanded, history)
  {
    assert open[0] in open;
    SearchFacts(tiles, canTransform, start, nodes, open, g, history, open[0].id);
  }

  /** The end node popped ends the search with the node's chain and G. */
  lemma EndAnswer(tiles: array2<TileType>, canTransform: bool, start: Pos, end: Pos,
                  nodes: seq<AStarNode>, open: seq<AStarNode>, g: ScoreTable, history: seq<ScoreTable>,
                  expanded: seq<Pos>, iterations: nat)
    requires Running(tiles, canTransform, start, end, nodes, open, g, history, expanded, iterations)
    requires |open| > 0 && InBounds(SizeOf(tiles), open[0].position) && open[0].position == end
    ensures open[0].id < |nodes|
    ensures var r := Returned(SearchResult(Chain(nodes, open[0].id), open[0].costG, iterations));
      Answered(tiles, canTransform, start, end, r) && Recorded(tiles, canTransform, start, end, r, expanded, history)
  {
    var c := open[0].id;
    assert open[0] in open;
    SearchFacts(tiles, canTransform, start, nodes, open, g, history, c);
    assert TallyAt(tiles, canTransform, start, end, nodes, open, g, expanded, iterations, 0);
    ReachedEnd(tiles, canTransform, start, end, nodes, open, g, history, c);
    ChainEnds(nodes, c);
    if !InBounds(SizeOf(tiles), start) || start == end {
      assert c == 0;
    }
  }

  /**
   * An empty open set ends the search with no path, and then no path leads
   * from the start to the end: the final table is closed under stepping,
   * scores the start and leaves the end unscored.
   */
  lemma ExhaustedAnswer(tiles: array2<TileType>, canTransform: bool, start: Pos, end: Pos,
                        nodes: seq<AStarNode>, open: seq<AStarNode>, g: ScoreTable, history: seq<ScoreTable>,
                        expanded: seq<Pos>, iterations: nat)
    requires Running(tiles, canTransform, start, end, nodes, open, g, history, expanded, iterations)
    requires |open| == 0
    ensures Answered(tiles, canTransform, start, end, Returned(SearchResult([], -1, iterations)))
    ensures Recorded(tiles, canTransform, start, end, Returned(SearchResult([], -1, iterations)), expanded, history)
    ensures Unreachable(tiles, canTransform, start, end)
  {
    SearchFacts(tiles, canTransform, start, nodes, open, g, history, 0);
    assert TallyAt(tiles, canTransform, start, end, nodes, open, g, expanded, iterations, 0);
    forall p | p in g && InBounds(SizeOf(tiles), p) ensures NeighboursScored(tiles, canTransform, g, p) {
      assert ClosedAt(tiles, canTransform, open, g, {}, p);
    }
    ClosedTableBlocks(tiles, canTransform, g, start, end);
  }

  /**
   * Expanding the parentless start node on a wall with a neighbour ends the
   * search with NullReferenceException; the search state it leaves behind
   * still satisfies the search invariant.
   */
  lemma NullParentAnswer(tiles: array2<TileType>, canTransform: bool, start: Pos, end: Pos,
                         nodes: seq<AStarNode>, open: seq<AStarNode>, g: ScoreTable, history: seq<ScoreTable>,
                         expanded: seq<Pos>, iterations: nat,
                         nodes': seq<AStarNode>, open': seq<AStarNode>, g': ScoreTable, history': seq<ScoreTable>)
    requires Running(tiles, canTransform, start, end, nodes, open, g, history, expanded, iterations)
    requires |open| > 0 && InBounds(SizeOf(tiles), open[0].position) && open[0].position != end
    requires open[0].parent.None? && Tile(tiles, open[0].position) == Wall
    requires Neighbours(tiles, open[0].position, canTransform) != []
    requires Search(tiles, canTransform, start, nodes', open', g', history')
    ensures Answered(tiles, canTransform, start, end, Threw(NullReferenceException))
    ensures Recorded(tiles, canTransform, start, end, Threw(NullReferenceException), expanded, history')
  {
    assert open[0] in open;
    SearchFacts(tiles, canTransform, start, nodes, open, g, history, open[0].id);
    SearchFacts(tiles, canTransform, start, nodes', open', g', history', 0);
    assert open[0].position == start;
  }

  /**
   * Popping the first open node, on the board and not the end: its cell is
   * scored, and every other scored cell is still waiting or closed.
   */
  lemma RunningPopped(tiles: array2<TileType>, canTransform: bool, start: Pos, end: Pos,
                      nodes: seq<AStarNode>, open: seq<AStarNode>, g: ScoreTable, history: seq<ScoreTable>,
                      expanded: seq<Pos>, iterations: nat)
    requires Running(tiles, canTransform, start, end, nodes, open, g, history, expanded, iterations)
    requires |open| > 0 && open[0].position != end
    ensures open[0].position in g
    ensures Covering(tiles, canTransform, end, open[1..], g, {open[0].position})
  {
    assert open[0] in open;
    SearchFacts(tiles, canTransform, start, nodes, open, g, history, open[0].id);
    assert TallyAt(tiles, canTransform, start, end, nodes, open, g, expanded, iterations, 0);
    PoppedCovers(tiles, canTransform, end, open, g);
  }

  /** The first open node is the arena's node of its id and its cell is scored; the root sits at the start. */
  lemma PoppedFacts(tiles: array2<TileType>, canTransform: bool, start: Pos, nodes: seq<AStarNode>,
                    open: seq<AStarNode>, g: ScoreTable, history: seq<ScoreTable>)
    requires Search(tiles, canTransform, start, nodes, open, g, history) && |open| > 0
    ensures open[0].id < |nodes| && nodes[open[0].id] == open[0]
    ensures open[0].position in g && nodes[0].position == start
  {
    assert open[0] in open;
    SearchFacts(tiles, canTransform, start, nodes, open, g, history, open[0].id);
  }

  /**
   * Expanded cells keep their score and their scored neighbours when the
   * table only gains keys, and the cell `p` whose neighbours were all just
   * scored joins them.
   */
  lemma ExpandedStayScored(tiles: array2<TileType>, canTransform: bool, g: ScoreTable, g': ScoreTable,
                           expanded: seq<Pos>, p: Pos)
    requires InBounds(SizeOf(tiles), p) && p in g
    requires forall k :: 0 <= k < |expanded| ==> InBounds(SizeOf(tiles), expanded[k])
    requires forall k :: 0 <= k < |expanded| ==>
      expanded[k] in g && NeighboursScored(tiles, canTransform, g, expanded[k])
    requires forall q :: q in g' <==> q in g || q in Neighbours(tiles, p, canTransform)
    ensures forall k :: 0 <= k < |expanded + [p]| ==>
      (expanded + [p])[k] in g' && NeighboursScored(tiles, canTransform, g', (expanded + [p])[k])
  {
    var expanded' := expanded + [p];
    forall k | 0 <= k < |expanded'|
      ensures expanded'[k] in g' && NeighboursScored(tiles, canTransform, g', expanded'[k])
    {
      if k < |expanded| {
        assert expanded'[k] == expanded[k];
        assert NeighboursScored(tiles, canTransform, g, expanded[k]);
      }
    }
  }

  /**
   * After the first open node's cell is expanded, every scored cell on the
   * board without an open node has been expanded, if that held before the
   * node was popped and the expansion anchored every newly scored cell.
   */
  lemma UnopenedExpanded(tiles: array2<TileType>, nodes: seq<AStarNode>, open: seq<AStarNode>, g: ScoreTable,
                         nodes': seq<AStarNode>, open': seq<AStarNode>, g': ScoreTable, expanded: seq<Pos>)
    requires |open| > 0
    requires forall p :: p in g && InBounds(SizeOf(tiles), p) && NoneAt(open, p) ==> p in expanded
    requires Pushed(nodes, open[1..], g, nodes', open', g')
    ensures forall p :: p in g' && InBounds(SizeOf(tiles), p) && NoneAt(open', p) ==>
      p in expanded + [open[0].position]
  {
    PushedFacts(nodes, open[1..], g, nodes', open', g');
    forall q | q in g' && InBounds(SizeOf(tiles), q) && NoneAt(open', q)
      ensures q in expanded + [open[0].position]
    {
      if q != open[0].position {
        forall e | e in open ensures e.position != q {
          assert e == open[0] || e in open[1..];
        }
      }
    }
  }

  /**
   * Expanding the first open node, on the board and not the end, without
   * throwing, so that the table gains exactly the node's neighbours as keys
   * and every scored cell is waiting or closed: the loop invariant holds
   * again with that cell expanded and its neighbours counted.
   */
  lemma ExpansionContinues(tiles: array2<TileType>, canTransform: bool, start: Pos, end: Pos,
                           nodes: seq<AStarNode>, open: seq<AStarNode>, g: ScoreTable, history: seq<ScoreTable>,
                           expanded: seq<Pos>, iterations: nat,
                           nodes': seq<AStarNode>, open': seq<AStarNode>, g': ScoreTable, history': seq<ScoreTable>,
                           iterations': nat)
    requires Running(tiles, canTransform, start, end, nodes, open, g, history, expanded, iterations)
    requires |open| > 0 && InBounds(SizeOf(tiles), open[0].position) && open[0].position != end
    requires !(open[0].parent.None? && Tile(tiles, open[0].position) == Wall
               && Neighbours(tiles, open[0].position, canTransform) != [])
    requires Search(tiles, canTransform, start, nodes', open', g', history')
    requires iterations' == iterations + |Neighbours(tiles, open[0].position, canTransform)|
    requires forall q :: q in g' <==> q in g || q in Neighbours(tiles, open[0].position, canTransform)
    requires Covering(tiles, canTransform, end, open', g', {})
    requires Pushed(nodes, open[1..], g, nodes', open', g')
    ensures Running(tiles, canTransform, start, end, nodes', open', g', history', expanded + [open[0].position],
                    iterations')
  {
    PoppedFacts(tiles, canTransform, start, nodes, open, g, history);
    assert TallyAt(tiles, canTransform, start, end, nodes, open, g, expanded, iterations, 0);
    TallyNext(tiles, canTransform, start, end, nodes, open, g, expanded, iterations, nodes', open', g', iterations');
  }

  /** The tally after the first open node's cell is expanded, from the tally before it was popped. */
  lemma TallyNext(tiles: array2<TileType>, canTransform: bool, start: Pos, end: Pos,
                  nodes: seq<AStarNode>, open: seq<AStarNode>, g: ScoreTable, expanded: seq<Pos>, iterations: nat,
                  nodes': seq<AStarNode>, open': seq<AStarNode>, g': ScoreTable, iterations': nat)
    requires |nodes| > 0 && |nodes'| > 0 && nodes[0].parent.None? && nodes[0].position == start
    requires forall k :: 0 <= k < |expanded| ==> InBounds(SizeOf(tiles), expanded[k])
    requires TallyAt(tiles, canTransform, start, end, nodes, open, g, expanded, iterations, 0)
    requires |open| > 0 && InBounds(SizeOf(tiles), open[0].position) && open[0].position != end
    requires open[0].position in g
    requires !(open[0].parent.None? && Tile(tiles, open[0].position) == Wall
               && Neighbours(tiles, open[0].position, canTransform) != [])
    requires iterations' == iterations + |Neighbours(tiles, open[0].position, canTransform)|
    requires forall q :: q in g' <==> q in g || q in Neighbours(tiles, open[0].position, canTransform)
    requires Covering(tiles, canTransform, end, open', g', {})
    requires Pushed(nodes, open[1..], g, nodes', open', g')
    ensures forall k :: 0 <= k < |expanded + [open[0].position]| ==>
      InBounds(SizeOf(tiles), (expanded + [open[0].position])[k])
    ensures TallyAt(tiles, canTransform, start, end, nodes', open', g', expanded + [open[0].position], iterations', 0)
  {
    var p := open[0].position;
    NeighbourCountAppend(tiles, expanded, p, canTransform);
    UnopenedExpanded(tiles, nodes, open, g, nodes', open', g', expanded);
    ExpandedStayScored(tiles, canTransform, g, g', expanded, p);
  }

  /**
   * The fixed inputs of an expansion of node `c`: its cell is on the board
   * and scored `base`, `current` is that cell's tile, and `cameFrom` is the
   * tile of the cell `c` was reached from.
   */
  ghost predicate ExpansionOf(tiles: array2<TileType>, c: nat, current: TileType, cameFrom: Option<TileType>,
                              base: int, nodes: seq<AStarNode>, g: ScoreTable)
    reads tiles
  {
    && WellFormed(nodes) && c < |nodes|
    && InBounds(SizeOf(tiles), nodes[c].position) && current == Tile(tiles, nodes[c].position)
    && nodes[c].position in g && base == g[nodes[c].position]
    && cameFrom == CameFrom(tiles, nodes, c)
  }

  /**
   * The state of an expansion of node `c` once the neighbours `done` were
   * relaxed: the search invariant holds, the expansion so far is `Relaxing`,
   * every scored cell but `c`'s is waiting or closed, and the termination
   * measure is no higher than when the expansion began. It is stated
   * through `ExpandingAt` at the single point 0, which only the lemmas below
   * unfold; this keeps the proof of `ExpandNode` small.
   */
  ghost predicate Expanding(tiles: array2<TileType>, canTransform: bool, start: Pos, end: Pos, c: nat,
                            current: TileType, cameFrom: Option<TileType>, base: int, done: seq<Pos>,
                            nodes: seq<AStarNode>, open: seq<AStarNode>, g: ScoreTable, history: seq<ScoreTable>,
                            nodes': seq<AStarNode>, open': seq<AStarNode>, g': ScoreTable, history': seq<ScoreTable>)
    reads tiles
    requires forall q :: q in done ==> InBounds(SizeOf(tiles), q)
  {
    forall point: nat | point == 0 ::
      ExpandingAt(tiles, canTransform, start, end, c, current, cameFrom, base, done,
                  nodes, open, g, history, nodes', open', g', history', point)
  }

  /** The parts of `Expanding`. */
  ghost predicate ExpandingAt(tiles: array2<TileType>, canTransform: bool, start: Pos, end: Pos, c: nat,
                              current: TileType, cameFrom: Option<TileType>, base: int, done: seq<Pos>,
                              nodes: seq<AStarNode>, open: seq<AStarNode>, g: ScoreTable, history: seq<ScoreTable>,
                              nodes': seq<AStarNode>, open': seq<AStarNode>, g': ScoreTable, history': seq<ScoreTable>,
                              point: nat)
    reads tiles
    requires forall q :: q in done ==> InBounds(SizeOf(tiles), q)
  {
    && c < |nodes|
    && Search(tiles, canTransform, start, nodes', open', g', history')
    && Relaxing(tiles, canTransform, c, current, cameFrom, base, done, nodes, open, g, history,
                nodes', open', g', history')
    && Covering(tiles, canTransform, end, open', g', {nodes[c].position})
    && |Absent(SizeOf(tiles), g')| <= |Absent(SizeOf(tiles), g)|
    && (|Absent(SizeOf(tiles), g')| == |Absent(SizeOf(tiles), g)| ==>
          2 * Total(g', SizeOf(tiles).x, SizeOf(tiles).y) + |open'|
          <= 2 * Total(g, SizeOf(tiles).x, SizeOf(tiles).y) + |open|)
  }

  /** An expansion starts from a state with the search invariant in which only the popped cell is uncovered. */
  lemma ExpandingBegins(tiles: array2<TileType>, canTransform: bool, start: Pos, end: Pos, c: nat,
                        current: TileType, cameFrom: Option<TileType>, base: int,
                        nodes: seq<AStarNode>, open: seq<AStarNode>, g: ScoreTable, history: seq<ScoreTable>)
    requires Search(tiles, canTransform, start, nodes, open, g, history) && c < |nodes|
    requires Covering(tiles, canTransform, end, open, g, {nodes[c].position})
    ensures Expanding(tiles, canTransform, start, end, c, current, cameFrom, base, [],
                      nodes, open, g, history, nodes, open, g, history)
  {
    RelaxingBegins(tiles, canTransform, c, current, cameFrom, base, nodes, open, g, history);
    assert ExpandingAt(tiles, canTransform, start, end, c, current, cameFrom, base, [],
                       nodes, open, g, history, nodes, open, g, history, 0);
  }

  /**
   * During an expansion the search invariant holds, node `c` is unchanged,
   * the tile it came from is still `cameFrom` (None exactly for the start
   * node), and its cell's score is still `base`.
   */
  lemma ExpandingFacts(tiles: array2<TileType>, canTransform: bool, start: Pos, end: Pos, c: nat,
                       current: TileType, cameFrom: Option<TileType>, base: int, done: seq<Pos>,
                       nodes: seq<AStarNode>, open: seq<AStarNode>, g: ScoreTable, history: seq<ScoreTable>,
                       nodes': seq<AStarNode>, open': seq<AStarNode>, g': ScoreTable, history': seq<ScoreTable>)
    requires forall q :: q in done ==> InBounds(SizeOf(tiles), q)
    requires ExpansionOf(tiles, c, current, cameFrom, base, nodes, g) && nodes[c].position !in done
    requires Expanding(tiles, canTransform, start, end, c, current, cameFrom, base, done,
                       nodes, open, g, history, nodes', open', g', history')
    ensures Search(tiles, canTransform, start, nodes', open', g', history')
    ensures c < |nodes'| && nodes'[c] == nodes[c]
    ensures CameFrom(tiles, nodes', c) == cameFrom
    ensures cameFrom.None? <==> nodes[c].parent.None?
    ensures nodes[c].position in g' && g'[nodes[c].position] == base
  {
    assert ExpandingAt(tiles, canTransform, start, end, c, current, cameFrom, base, done,
                       nodes, open, g, history, nodes', open', g', history', 0);
    assert nodes'[c] == nodes'[..|nodes|][c];
    CameFromKept(tiles, nodes, nodes', c);
    SearchFacts(tiles, canTransform, start, nodes', open', g', history', c);
  }

  /**
   * Relaxing neighbour `q` with an improving write of its offer `t`, a new
   * child node of `c`, and a push when no node for `q` is open, extends the
   * expansion by `q`.
   */
  lemma ExpandingWrite(tiles: array2<TileType>, canTransform: bool, start: Pos, end: Pos, c: nat,
                       current: TileType, cameFrom: Option<TileType>, base: int, done: seq<Pos>, q: Pos,
                       nodes: seq<AStarNode>, open: seq<AStarNode>, g: ScoreTable, history: seq<ScoreTable>,
                       nodes': seq<AStarNode>, open': seq<AStarNode>, g': ScoreTable, history': seq<ScoreTable>,
                       t: int, h: int, isNew: bool)
    requires forall m :: m in done ==> InBounds(SizeOf(tiles), m)
    requires ExpansionOf(tiles, c, current, cameFrom, base, nodes, g) && nodes[c].position !in done
    requires Expanding(tiles, canTransform, start, end, c, current, cameFrom, base, done,
                       nodes, open, g, history, nodes', open', g', history')
    requires q in Neighbours(tiles, nodes[c].position, canTransform) && q !in done
    requires StepCost(canTransform, current, cameFrom, Tile(tiles, q)).Some?
    requires t == Offer(tiles, canTransform, current, cameFrom, base, q)
    requires q !in g' || t < g'[q]
    requires Sorted(open') && isNew == NoneAt(open', q)
    ensures var node := AStarNode(|nodes'|, q, t, h, Some(c));
      Expanding(tiles, canTransform, start, end, c, current, cameFrom, base, done + [q],
                nodes, open, g, history,
                nodes' + [node], if isNew then Add(open', node) else open', g'[q := t], history' + [g'[q := t]])
  {
    var node := AStarNode(|nodes'|, q, t, h, Some(c));
    var open'' := if isNew then Add(open', node) else open';
    NeighboursShape(tiles, nodes[c].position, canTransform);
    ExpandingFacts(tiles, canTransform, start, end, c, current, cameFrom, base, done,
                   nodes, open, g, history, nodes', open', g', history');
    assert ExpandingAt(tiles, canTransform, start, end, c, current, cameFrom, base, done,
                       nodes, open, g, history, nodes', open', g', history', 0);
    SearchUnpacked(tiles, canTransform, start, nodes', open', g', history');
    RelaxStep(tiles, canTransform, start, nodes', open', g', history', c, q, t, h, isNew);
    RelaxingWrite(tiles, canTransform, c, current, cameFrom, base, done, q,
                  nodes, open, g, history, nodes', open', g', history', t, h, isNew);
    PushCovers(tiles, canTransform, end, nodes', open', g', {nodes[c].position}, node, isNew);
    assert ExpandingAt(tiles, canTransform, start, end, c, current, cameFrom, base, done + [q],
                       nodes, open, g, history, nodes' + [node], open'', g'[q := t], history' + [g'[q := t]], 0);
  }

  /** Relaxing neighbour `q` without an improvement extends the expansion by `q` and changes nothing. */
  lemma ExpandingSkip(tiles: array2<TileType>, canTransform: bool, start: Pos, end: Pos, c: nat,
                      current: TileType, cameFrom: Option<TileType>, base: int, done: seq<Pos>, q: Pos,
                      nodes: seq<AStarNode>, open: seq<AStarNode>, g: ScoreTable, history: seq<ScoreTable>,
                      nodes': seq<AStarNode>, open': seq<AStarNode>, g': ScoreTable, history': seq<ScoreTable>)
    requires forall m :: m in done ==> InBounds(SizeOf(tiles), m)
    requires InBounds(SizeOf(tiles), q) && q !in done
    requires Expanding(tiles, canTransform, start, end, c, current, cameFrom, base, done,
                       nodes, open, g, history, nodes', open', g', history')
    requires q in g' && g'[q] <= Offer(tiles, canTransform, current, cameFrom, base, q)
    ensures Expanding(tiles, canTransform, start, end, c, current, cameFrom, base, done + [q],
                      nodes, open, g, history, nodes', open', g', history')
  {
    assert ExpandingAt(tiles, canTransform, start, end, c, current, cameFrom, base, done,
                       nodes, open, g, history, nodes', open', g', history', 0);
    RelaxingSkip(tiles, canTransform, c, current, cameFrom, base, done, q,
                 nodes, open, g, history, nodes', open', g', history');
    assert ExpandingAt(tiles, canTransform, start, end, c, current, cameFrom, base, done + [q],
                       nodes, open, g, history, nodes', open', g', history', 0);
  }

  /**
   * An expansion that relaxed every neighbour of node `c` leaves the search
   * invariant, the relaxation facts, every scored cell waiting or closed,
   * `c`'s cell included, and a termination measure no higher than before.
   */
  lemma ExpandingEnds(tiles: array2<TileType>, canTransform: bool, start: Pos, end: Pos, c: nat,
                      current: TileType, cameFrom: Option<TileType>, base: int,
                      nodes: seq<AStarNode>, open: seq<AStarNode>, g: ScoreTable, history: seq<ScoreTable>,
                      nodes': seq<AStarNode>, open': seq<AStarNode>, g': ScoreTable, history': seq<ScoreTable>)
    requires ExpansionOf(tiles, c, current, cameFrom, base, nodes, g)
    requires var ns := Neighbours(tiles, nodes[c].position, canTransform);
      (forall q :: q in ns ==> InBounds(SizeOf(tiles), q))
      && Expanding(tiles, canTransform, start, end, c, current, cameFrom, base, ns,
                   nodes, open, g, history, nodes', open', g', history')
    ensures Search(tiles, canTransform, start, nodes', open', g', history')
    ensures Relaxing(tiles, canTransform, c, current, cameFrom, base, Neighbours(tiles, nodes[c].position, canTransform),
                     nodes, open, g, history, nodes', open', g', history')
    ensures Covering(tiles, canTransform, end, open', g', {})
    ensures |Absent(SizeOf(tiles), g')| <= |Absent(SizeOf(tiles), g)|
    ensures |Absent(SizeOf(tiles), g')| == |Absent(SizeOf(tiles), g)| ==>
      2 * Total(g', SizeOf(tiles).x, SizeOf(tiles).y) + |open'| <= 2 * Total(g, SizeOf(tiles).x, SizeOf(tiles).y) + |open|
  {
    var ns := Neighbours(tiles, nodes[c].position, canTransform);
    assert ExpandingAt(tiles, canTransform, start, end, c, current, cameFrom, base, ns,
                       nodes, open, g, history, nodes', open', g', history', 0);
    ExpandedCovers(tiles, canTransform, end, open', g', nodes[c].position);
  }

  class Game {
    var tiles: array2<TileType>
    var size: Pos
    var startPos: Pos
    var endPos: Pos

    /** The size is the array's; the start is the top-left cell and the end the bottom-right one. */
    ghost predicate Valid()
      reads this
    {
      && size == SizeOf(tiles)
      && startPos == Pos(0, 0)
      && endPos == Pos(size.x - 1, size.y - 1)
    }

    /** A board over the given tile array (not copied), or over the example map when none is given. */
    constructor (tiles: array2?<TileType>)
      ensures Valid()
      ensures tiles != null ==> this.tiles == tiles
      ensures tiles == null ==> fresh(this.tiles) && IsExample(this.tiles)
    {
      var t: array2<TileType>;
      if tiles == null {
        t := ExampleTiles();
      } else {
        t := tiles;
      }
      this.tiles := t;
      size := Pos(t.Length0, t.Length1);
      startPos := Pos(0, 0);
      endPos := Pos(t.Length0 - 1, t.Length1 - 1);
    }

    /** Builds the 8-by-8 example map, transposing the layout rows into (x, y) cells. */
    static method ExampleTiles() returns (result: array2<TileType>)
      ensures fresh(result) && IsExample(result)
    {
      ExampleLayoutCodes();
      result := new TileType[8, 8];
      for x := 0 to 8
        invariant forall i, j :: 0 <= i < x && 0 <= j < 8 ==> result[i, j] == TileOf(ExampleLayout[j][i])
      {
        for y := 0 to 8
          invariant forall i, j :: 0 <= i < x && 0 <= j < 8 ==> result[i, j] == TileOf(ExampleLayout[j][i])
          invariant forall j :: 0 <= j < y ==> result[x, j] == TileOf(ExampleLayout[j][x])
        {
          result[x, y] := TileOf(ExampleLayout[y][x]);
        }
      }
    }

    /** Overwrites one cell; a position off the board is ignored. */
    method SetTile(pos: Pos, kind: TileType)
      requires Valid()
      modifies tiles
      ensures Valid()
      ensures !InBounds(size, pos) ==> unchanged(tiles)
      ensures InBounds(size, pos) ==> tiles[pos.x, pos.y] == kind
      ensures forall x, y :: 0 <= x < size.x && 0 <= y < size.y && Pos(x, y) != pos ==>
        tiles[x, y] == old(tiles[x, y])
    {
      if pos.x < 0 || pos.x >= size.x || pos.y < 0 || pos.y >= size.y {
        return;
      }
      tiles[pos.x, pos.y] := kind;
    }

    /** The heuristic estimate of the remaining cost: constantly zero. */
    function CostH(pos: Pos): int {
      0
    }

    method GetPotentialNeighbors(pos: Pos) returns (result: seq<Pos>)
      requires Valid()
      ensures result == PotentialNeighbours(size, pos)
    {
      result := [];
      var cands := Candidates(pos);
      for i := 0 to 4
        invariant result == KeepInBounds(size, cands[..i])
      {
        var npos := pos.Plus(Directions[i]);
        assert cands[..i + 1] == cands[..i] + [npos];
        if npos.x >= 0 && npos.x < size.x && npos.y >= 0 && npos.y < size.y {
          result := result + [npos];
        }
      }
      assert cands[..4] == cands;
    }

    method GetNeighbours(pos: Pos, canTransform: bool) returns (neighbours: seq<Pos>)
      requires Valid() && InBounds(size, pos)
      ensures neighbours == Neighbours(tiles, pos, canTransform)
    {
      neighbours := [];
      var potential := GetPotentialNeighbors(pos);
      for i := 0 to |potential|
        invariant neighbours == KeepEnterable(tiles, pos, potential[..i], canTransform)
      {
        var neighbour := potential[i];
        assert neighbour in potential;
        assert potential[..i + 1] == potential[..i] + [neighbour];
        if tiles[neighbour.x, neighbour.y] != Wall {
          neighbours := neighbours + [neighbour];
        } else if tiles[pos.x, pos.y] != Wall && canTransform {
          var around := GetPotentialNeighbors(neighbour);
          if AnyOpenExcept(tiles, around, pos) {
            neighbours := neighbours + [neighbour];
          }
        }
      }
      assert potential[..|potential|] == potential;
    }

    /**
     * The uniform-cost search from the start to the end cell. On success it
     * returns the chain of the end node popped from the open set, that node's
     * G as the cost, and the number of neighbours examined; on exhaustion an
     * empty path with cost -1. `expanded` lists the cells whose neighbours were
     * examined, in order, and `history` every value the score table takes.
     */
    method FindPath(canTransform: bool) returns (r: Outcome, ghost expanded: seq<Pos>, ghost history: seq<ScoreTable>)
      requires Valid()
      ensures Answered(tiles, canTransform, startPos, endPos, r)
      ensures Recorded(tiles, canTransform, startPos, endPos, r, expanded, history)
      ensures r.Returned? && r.result.path == [] ==> Unreachable(tiles, canTransform, startPos, endPos)
    {
      var iterations: nat := 0;
      expanded := [];
      var startNode := AStarNode(0, startPos, 0, CostH(startPos), None);
      var nodes := [startNode];
      var openSet := Add([], startNode);
      var gScore := map[startPos := 0];
      history := [gScore];
      RunningBegins(tiles, canTransform, startPos, endPos);

      while |openSet| > 0
        invariant Running(tiles, canTransform, startPos, endPos, nodes, openSet, gScore, history, expanded, iterations)
        decreases |Absent(size, gScore)|, 2 * Total(gScore, size.x, size.y) + |openSet|
      {
        var currentNode := openSet[0];
        assert currentNode in openSet;
        if currentNode.position.x < 0 || currentNode.position.x >= size.x
           || currentNode.position.y < 0 || currentNode.position.y >= size.y {
          r := Threw(IndexOutOfRangeException);
          OffBoardAnswer(tiles, canTransform, startPos, endPos, nodes, openSet, gScore, history, expanded, iterations);
          return;
        }
        var currentTile := tiles[currentNode.position.x, currentNode.position.y];

        if currentNode.position == endPos {
          var path := ReconstructPath(nodes, currentNode.id);
          r := Returned(SearchResult(path, currentNode.costG, iterations));
          EndAnswer(tiles, canTransform, startPos, endPos, nodes, openSet, gScore, history, expanded, iterations);
          return;
        }

        ghost var nodes0, open0, g0, history0, iterations0 := nodes, openSet, gScore, history, iterations;
        RunningPopped(tiles, canTransform, startPos, endPos, nodes, openSet, gScore, history, expanded, iterations);
        SearchPopped(tiles, canTransform, startPos, nodes, openSet, gScore, history);
        openSet := openSet[1..];
        var threw;
        threw, nodes, openSet, gScore, history, iterations :=
          ExpandNode(canTransform, currentNode, currentTile, nodes, openSet, gScore, history, iterations);
        if threw {
          r := Threw(NullReferenceException);
          NullParentAnswer(tiles, canTransform, startPos, endPos, nodes0, open0, g0, history0, expanded, iterations0,
                           nodes, openSet, gScore, history);
          return;
        }
        ExpansionContinues(tiles, canTransform, startPos, endPos, nodes0, open0, g0, history0, expanded, iterations0,
                           nodes, openSet, gScore, history, iterations);
        expanded := expanded + [currentNode.position];
        SearchFacts(tiles, canTransform, startPos, nodes, openSet, gScore, history, 0);
        TotalNonNegative(gScore, size.x, size.y);
      }
      r := Returned(SearchResult([], -1, iterations));
      ExhaustedAnswer(tiles, canTransform, startPos, endPos, nodes, openSet, gScore, history, expanded, iterations);
    }

    /**
     * Examines the neighbours of `currentNode`, in order, counting each one
     * and offering it the node's score plus the step cost; the offer is
     * written when the neighbour has no score or a higher one, together with
     * a child node, which is pushed when no node for that cell is open. It
     * throws (the missing parent is dereferenced) exactly when the node
     * stands on a wall, has no parent and has a neighbour. Otherwise every
     * neighbour is counted, the table is the old one relaxed over the
     * neighbours, the arena, the history and the open set only grow, the
     * expanded cell is closed, and the termination measure does not grow.
     */
    method ExpandNode(canTransform: bool, currentNode: AStarNode, currentTile: TileType,
                      nodes: seq<AStarNode>, openSet: seq<AStarNode>, gScore: ScoreTable,
                      ghost history: seq<ScoreTable>, iterations: nat)
      returns (threw: bool, nodes': seq<AStarNode>, openSet': seq<AStarNode>, gScore': ScoreTable,
               ghost history': seq<ScoreTable>, iterations': nat)
      requires Valid() && Search(tiles, canTransform, startPos, nodes, openSet, gScore, history)
      requires currentNode.id < |nodes| && nodes[currentNode.id] == currentNode
      requires InBounds(size, currentNode.position) && currentTile == Tile(tiles, currentNode.position)
      requires currentNode.position in gScore
      requires Covering(tiles, canTransform, endPos, openSet, gScore, {currentNode.position})
      ensures threw <==>
        currentTile == Wall && currentNode.parent.None? && Neighbours(tiles, currentNode.position, canTransform) != []
      ensures Search(tiles, canTransform, startPos, nodes', openSet', gScore', history')
      ensures !threw ==>
        && iterations' == iterations + |Neighbours(tiles, currentNode.position, canTransform)|
        && Relaxing(tiles, canTransform, currentNode.id, currentTile, CameFrom(tiles, nodes, currentNode.id),
                    gScore[currentNode.position], Neighbours(tiles, currentNode.position, canTransform),
                    nodes, openSet, gScore, history, nodes', openSet', gScore', history')
        && Covering(tiles, canTransform, endPos, openSet', gScore', {})
        && |Absent(size, gScore')| <= |Absent(size, gScore)|
        && (|Absent(size, gScore')| == |Absent(size, gScore)| ==>
              2 * Total(gScore', size.x, size.y) + |openSet'| <= 2 * Total(gScore, size.x, size.y) + |openSet|)
    {
      threw := false;
      nodes', openSet', gScore', history', iterations' := nodes, openSet, gScore, history, iterations;
      ghost var c := currentNode.id;
      var neighbours := GetNeighbours(currentNode.position, canTransform);
      NeighboursShape(tiles, currentNode.position, canTransform);
      NeighboursDistinct(tiles, currentNode.position, canTransform);
      var cameFrom := CameFrom(tiles, nodes, currentNode.id);
      ghost var base := gScore[currentNode.position];
      assert ExpansionOf(tiles, c, currentTile, cameFrom, base, nodes, gScore);
      ExpandingBegins(tiles, canTransform, startPos, endPos, c, currentTile, cameFrom, base,
                      nodes, openSet, gScore, history);
      for i := 0 to |neighbours|
        invariant Expanding(tiles, canTransform, startPos, endPos, c, currentTile, cameFrom, base, neighbours[..i],
                            nodes, openSet, gScore, history, nodes', openSet', gScore', history')
        invariant iterations' == iterations + i
        invariant currentTile == Wall && currentNode.parent.None? ==> i == 0
      {
        NextNeighbour(neighbours, i);
        iterations' := iterations' + 1;
        threw, nodes', openSet', gScore', history' :=
          RelaxNeighbour(canTransform, currentNode, currentTile, cameFrom, base, neighbours[..i], neighbours[i],
                         nodes, openSet, gScore, history, nodes', openSet', gScore', history');
        if threw {
          ExpandingFacts(tiles, canTransform, startPos, endPos, c, currentTile, cameFrom, base, neighbours[..i],
                         nodes, openSet, gScore, history, nodes', openSet', gScore', history');
          return;
        }
      }
      assert neighbours[..|neighbours|] == neighbours;
      ExpandingEnds(tiles, canTransform, startPos, endPos, c, currentTile, cameFrom, base,
                    nodes, openSet, gScore, history, nodes', openSet', gScore', history');
    }

    /**
     * One pass of the expansion loop for `neighbour`, after the neighbours
     * `done`: the neighbour is offered the expanded cell's score plus the step
     * cost; a new or strictly lower offer is written, with a child node,
     * pushed when no node for that cell is open. It throws exactly when the
     * expanded node is the parentless start on a wall, whose step cost needs
     * the missing parent; otherwise the expansion is extended by the neighbour.
     */
    method RelaxNeighbour(canTransform: bool, currentNode: AStarNode, currentTile: TileType,
                          cameFrom: Option<TileType>, ghost base: int, ghost done: seq<Pos>, neighbour: Pos,
                          ghost nodes: seq<AStarNode>, ghost openSet: seq<AStarNode>, ghost gScore: ScoreTable,
                          ghost history: seq<ScoreTable>,
                          nodes': seq<AStarNode>, openSet': seq<AStarNode>, gScore': ScoreTable,
                          ghost history': seq<ScoreTable>)
      returns (threw: bool, nodes'': seq<AStarNode>, openSet'': seq<AStarNode>, gScore'': ScoreTable,
               ghost history'': seq<ScoreTable>)
      requires Valid() && forall m :: m in done ==> InBounds(size, m)
      requires ExpansionOf(tiles, currentNode.id, currentTile, cameFrom, base, nodes, gScore)
      requires nodes[currentNode.id] == currentNode && currentNode.position !in done
      requires Expanding(tiles, canTransform, startPos, endPos, currentNode.id, currentTile, cameFrom, base, done,
                         nodes, openSet, gScore, history, nodes', openSet', gScore', history')
      requires neighbour in Neighbours(tiles, currentNode.position, canTransform) && neighbour !in done
      ensures threw <==> currentTile == Wall && currentNode.parent.None?
      ensures threw ==> nodes'' == nodes' && openSet'' == openSet' && gScore'' == gScore' && history'' == history'
      ensures !threw ==>
        Expanding(tiles, canTransform, startPos, endPos, currentNode.id, currentTile, cameFrom, base, done + [neighbour],
                  nodes, openSet, gScore, history, nodes'', openSet'', gScore'', history'')
    {
      ghost var c := currentNode.id;
      nodes'', openSet'', gScore'', history'' := nodes', openSet', gScore', history';
      ExpandingFacts(tiles, canTransform, startPos, endPos, c, currentTile, cameFrom, base, done,
                     nodes, openSet, gScore, history, nodes', openSet', gScore', history');
      NeighboursShape(tiles, currentNode.position, canTransform);
      var neighbourTile := tiles[neighbour.x, neighbour.y];
      var step := StepCost(canTransform, currentTile, CameFrom(tiles, nodes', currentNode.id), neighbourTile);
      StepCostCases(canTransform, currentTile, cameFrom, neighbourTile);
      if step.None? {
        threw := true;
        return;
      }
      threw := false;
      var tentativeGScore := gScore'[currentNode.position] + step.value;
      assert tentativeGScore == Offer(tiles, canTransform, currentTile, cameFrom, base, neighbour);

      if neighbour !in gScore' || tentativeGScore < gScore'[neighbour] {
        var neighbourNode := AStarNode(|nodes'|, neighbour, tentativeGScore, CostH(neighbour), Some(currentNode.id));
        var isNew := NoneAt(openSet', neighbour);
        ExpandingWrite(tiles, canTransform, startPos, endPos, c, currentTile, cameFrom, base, done,
                       neighbour, nodes, openSet, gScore, history, nodes', openSet', gScore', history',
                       tentativeGScore, CostH(neighbour), isNew);
        gScore'' := gScore'[neighbour := tentativeGScore];
        history'' := history' + [gScore''];
        if isNew {
          openSet'' := Add(openSet', neighbourNode);
        }
        nodes'' := nodes' + [neighbourNode];
      } else {
        ExpandingSkip(tiles, canTransform, startPos, endPos, c, currentTile, cameFrom, base, done,
                      neighbour, nodes, openSet, gScore, history, nodes', openSet', gScore', history');
      }
    }

    /** Walks the parent links from node `node` to the start node, then reverses the list. */
    static method ReconstructPath(nodes: seq<AStarNode>, node: nat) returns (path: seq<Pos>)
      requires WellFormed(nodes) && node < |nodes|
      ensures path == Chain(nodes, node)
      ensures |path| >= 1 && path[0] == nodes[0].position && path[|path| - 1] == nodes[node].position
    {
      path := [];
      var current: Option<nat> := Some(node);
      while current.Some?
        invariant current.Some? ==> current.value < |nodes| && path + Ancestry(nodes, current.value) == Ancestry(nodes, node)
        invariant current.None? ==> path == Ancestry(nodes, node)
        decreases if current.Some? then current.value + 1 else 0
      {
        path := path + [nodes[current.value].position];
        current := nodes[current.value].parent;
      }
      path := Reversed(path);
      AncestryReversed(nodes, node);
      ChainEnds(nodes, node);
    }
  }
}
