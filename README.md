# Grid path search engine, modelled in Dafny

This project models the pathfinding engine of a grid puzzle game
(`scripts/Game.cs`). A board is a rectangular array of tiles, each a `Wall`,
`Blue` or `Red`. The start is the top-left cell and the end the bottom-right
cell. `FindPath` is a best-first search from the start to the end:

- it moves in the four grid directions, in the order +x, −x, +y, −y;
- a step costs 0 between tiles of one colour and 1 between different
  colours;
- in transform mode a wall may be entered, at a cost of 2. It may only be
  entered from a non-wall, and only when the wall has another open cell
  around it. Leaving a wall compares colours against the cell the wall was
  entered from;
- the open set is an ordered set under a comparer that looks at F = G + H
  first and at the node id second. The estimate H is constantly 0, so the
  search is uniform-cost;
- a node is pushed only when its cell has no node in the open set. A cell
  whose score improves while a node for it is still open keeps that older
  node, with its older G and parent.

Files and modules:

- `optional.dfy` (`Optional`): the option type. It stands for nullable
  parent references.
- `grid.dfy` (`Grid`): tiles, coordinates, bounds, adjacency, the two
  neighbour rules, and what a legal path is (`IsPath`).
- `cost.dfy` (`Cost`): the cost of one step (`StepCost`) and of a whole path
  (`PathCost`).
- `frontier.dfy` (`Frontier`): search nodes, the comparer, and the open set
  as a strictly ascending sequence (`Add`, `NoneAt`).
- `arena.dfy` (`Arena`): the nodes of one search indexed by id, their parent
  links, and the chain from the start node to a node.
- `scores.dfy` (`Scores`): the score table (gScore), its history of single
  improvements, and the termination measures of the search loop.
- `game.dfy` (`GameEngine`): the board class `Game` with its constructor,
  `ExampleTiles`, `SetTile`, `CostH`, the two neighbour methods,
  `ReconstructPath` and `FindPath`. It also holds the search invariant and
  the lemmas that carry it through the loop.

`FindPath` is proved to terminate, with no fuel bound. Its measure is
lexicographic: first the number of board cells without a score, then twice
the sum of the scores plus the size of the open set. Every push either
gives a new cell a score or strictly lowers an existing score.

The engine's exceptions are results, not preconditions. `FindPath` returns
`Threw(IndexOutOfRangeException)` when the start cell is off the board,
which is the case for an empty tile array. It returns
`Threw(NullReferenceException)` when it expands the parentless start node
standing on a wall that has a neighbour. `FindPath`'s contract is two
predicates in `game.dfy` and a completeness clause. `Answered` is about the
outcome alone, and states both directions of both exception cases.
`Recorded` is about the expanded cells and the history of the score table.
The completeness clause says that an empty path means that no legal path
leads from the start to the end (`Unreachable`). It rests on an invariant
of the search loop (`Covering`): every scored cell on the board either
still has a node in the open set or has had all its neighbours scored, and
a scored end has an open node. When the open set runs empty the table is
therefore closed under stepping, and it does not hold the end. A second
invariant ties the expanded cells to the table: a newly scored cell always
gets an open node, because a node is pushed exactly when none is open at its
cell, so every scored cell without an open node has been expanded.

Two behaviours of the code are worth stating:

- A wall start is expanded in base mode too. When it has a neighbour, the
  expansion dereferences the missing parent.
- A wall start that is also the end returns `[start]`, so a base-mode path
  can be a single wall. The model proves the remaining cases: in base mode
  no cell after the first is a wall (`Grid.BasePathAvoidsWalls`), and a path
  of more than one cell starts on a non-wall (`Answered`).

## Model

| member | source | states |
|---|---|---|
| Grid.TileOf | scripts/Game.cs:5-10 | enum code 0 is `Wall` and 1 is `Blue`; the cast used by the example map |
| Grid.PotentialNeighboursShape | scripts/Game.cs:126-137 | the potential neighbours are exactly the in-bounds cells adjacent to the cell; there are at most 4, in the order +x, −x, +y, −y |
| Grid.KeepInBoundsKeepsOrder | scripts/Game.cs:129-134 | filtering the four candidates by bounds keeps their direction order |
| Grid.KeepEnterableKeepsOrder | scripts/Game.cs:142-152 | filtering the potential neighbours by the entry rule keeps their direction order |
| Grid.NeighboursShape | scripts/Game.cs:139-155 | a neighbour is an in-bounds adjacent cell that may be entered; there are at most 4, in direction order |
| Grid.BaseModeAvoidsWalls | scripts/Game.cs:143-146 | without transforming, the neighbours are exactly the adjacent in-bounds non-walls |
| Grid.TransformModeWallRule | scripts/Game.cs:147-152 | in transform mode a wall is a neighbour iff it is adjacent, the current cell is not a wall, and another in-bounds cell around the wall is open |
| Grid.PathStepsAdjacent | scripts/Game.cs:195-196 | consecutive cells of a search path are grid-adjacent |
| Grid.BasePathAvoidsWalls | scripts/Game.cs:139-146 | in base mode, no cell of a path after the first is a wall |
| Grid.TransformPathWallsHaveExit | scripts/Game.cs:149-151 | in transform mode, every wall on a path after the first cell is entered from a non-wall and has another open cell around it |
| Cost.StepCost | scripts/Game.cs:201-214 | a step costs at most 2; it costs 2 iff it enters a wall in transform mode; it cannot be evaluated (None) iff it leaves a parentless wall without transforming |
| Cost.StepCostCases | scripts/Game.cs:206-214 | off walls a step is free iff both tiles have one colour; leaving a wall without transforming, it is free iff the next tile has the colour of the cell the wall was entered from |
| Cost.PathCostBound | scripts/Game.cs:201-214 | a path of n cells costs at most 2(n − 1) |
| Cost.SameColourPathIsFree | scripts/Game.cs:211-214 | in base mode, a path of one colour costs 0 |
| Frontier.Compare | scripts/Game.cs:174-179 | the comparer says "equal" iff CostF and Id are both equal, and "less" iff (CostF, Id) is lexicographically smaller |
| Frontier.CompareIsStrictOrder | scripts/Game.cs:174-179 | the comparer is antisymmetric; the order it induces is transitive and relates any two nodes it does not call equal |
| Frontier.Add | scripts/Game.cs:224-225 | adding to the ordered set is a no-op when a member compares equal; otherwise the contents grow by exactly the new node |
| Frontier.AddKeepsOrder | scripts/Game.cs:174-182 | adding keeps the set strictly ascending |
| Frontier.AddMembers | scripts/Game.cs:224-225 | after adding, the members are the old ones plus the node unless an equal one was there; the size grows by at most one |
| Frontier.MinimumFirst | scripts/Game.cs:190 | the set's first member precedes every other member; among equal CostF it has the smallest id, so ties are popped in creation order |
| Frontier.NoneAt | scripts/Game.cs:224 | true iff no open node is at the given cell |
| Frontier.ZeroEstimateOrdersByCostG | scripts/Game.cs:120-124 | with H = 0 the open set orders by G and then by id |
| Arena.AncestryReversed | scripts/Game.cs:157-168 | reversing the parent walk gives the chain from the start node |
| Arena.ChainEnds | scripts/Game.cs:157-168 | a chain is non-empty, starts at the start node's cell and ends at the node's; it is a single cell iff the node is the start node |
| Arena.ChainExtend | scripts/Game.cs:222 | creating a node does not change the chains of older nodes |
| Arena.ChainIsPath | scripts/Game.cs:195-196 | when every node was reached by a legal step, a node's chain is a legal path from the start |
| Scores.HistoryNeverWorsens | scripts/Game.cs:219-221 | if each snapshot of the score table improves on the previous one, no key is lost and no value increases |
| Scores.AbsentShrinks | scripts/Game.cs:219-221 | scoring a new cell shrinks the set of unscored cells; rescoring leaves it unchanged |
| Scores.TotalNonNegative | scripts/Game.cs:184 | non-negative scores have a non-negative sum |
| Scores.TotalUpdate | scripts/Game.cs:221 | rewriting one score changes the board sum by exactly the difference |
| GameEngine.ExampleLayoutCodes | scripts/Game.cs:63-73 | the example layout is 8 by 8 with codes 0 to 2 |
| GameEngine.NeighbourCountAppend | scripts/Game.cs:198-200 | expanding one more cell adds its neighbour count to the iteration total |
| GameEngine.NodeFacts | scripts/Game.cs:201-209 | a node's cell has a score no worse than its G; its parent exists and lies on the board; on a board that has the start, the node lies on it |
| GameEngine.RelaxKeepsInvariant | scripts/Game.cs:219-222 | an improving write plus a new child node keep the node tree legal and every G within its chain's cost |
| GameEngine.PushKeepsOpen | scripts/Game.cs:224-225 | pushing the new node keeps the open set ordered and inside the node arena |
| GameEngine.ScoreWriteLowersMeasure | scripts/Game.cs:219-221 | an improving write either scores a new cell or lowers the score sum |
| GameEngine.ChronicleStep | scripts/Game.cs:219-221 | recording a non-negative improving write extends the history |
| GameEngine.SearchBegins | scripts/Game.cs:181-184 | the start node alone, open, at score 0 satisfies the search invariant |
| GameEngine.SearchPopped | scripts/Game.cs:193 | removing the minimum keeps the search invariant |
| GameEngine.SearchFacts | scripts/Game.cs:190-201 | the search invariant gives the popped node's parent and score facts and the history facts |
| GameEngine.RelaxStep | scripts/Game.cs:219-226 | one improving write, with its node and its conditional push, keeps the search invariant and does not raise the termination measure |
| GameEngine.ReachedEnd | scripts/Game.cs:195-196 | the popped end node's chain is a legal path from the start; its G is between 0 and that path's cost; the final score of the end is no worse than that G |
| GameEngine.RunningBegins | scripts/Game.cs:172-184 | the loop invariant holds before the first iteration |
| GameEngine.OffBoardAnswer | scripts/Game.cs:190-191 | a popped node off the board happens exactly when the start is off the board, and the answer is IndexOutOfRangeException |
| GameEngine.EndAnswer | scripts/Game.cs:195-196 | popping the end returns its chain, its G and the iteration count, and this satisfies the whole contract of the search |
| GameEngine.ExhaustedAnswer | scripts/Game.cs:186-230 | an empty open set returns an empty path with cost −1, and this satisfies the whole contract of the search; since every scored cell is then closed, no legal path leads from the start to the end |
| GameEngine.NullParentAnswer | scripts/Game.cs:206-208 | expanding the parentless wall start with a neighbour is the NullReferenceException case of the contract |
| GameEngine.RunningPopped | scripts/Game.cs:190-193 | the popped cell is scored, and after removing its node every other scored cell is still waiting or closed |
| GameEngine.UnopenedExpanded | scripts/Game.cs:186-227 | after an expansion, every scored cell on the board without an open node has been expanded |
| GameEngine.ExpandedStayScored | scripts/Game.cs:198-227 | expanded cells stay scored with all their neighbours scored, and the newly expanded cell joins them |
| GameEngine.TallyNext | scripts/Game.cs:186-227 | one expansion keeps the loop tally: iteration count, expanded cells, covering, unopened cells expanded, and the start expanded first |
| GameEngine.ExpansionContinues | scripts/Game.cs:198-227 | a completed expansion that scored exactly the cell's neighbours restores the loop invariant, with the cell counted as expanded and all its neighbours scored |
| GameEngine.RelaxCovers | scripts/Game.cs:219-225 | scoring a cell, without dropping an open node and with a node for that cell open afterwards if there was none, keeps every scored cell waiting or closed |
| GameEngine.PushCovers | scripts/Game.cs:219-225 | an improving write followed by the conditional push keeps every scored cell waiting or closed |
| GameEngine.PoppedCovers | scripts/Game.cs:190-193 | removing the minimum, when it is not the end, leaves only its own cell possibly uncovered |
| GameEngine.ExpandedCovers | scripts/Game.cs:198-227 | once every neighbour of the expanded cell is scored, that cell is closed as well |
| GameEngine.ClosedTableBlocks | scripts/Game.cs:186-230 | a table that scores the start, leaves the end unscored, and has every neighbour of each scored cell scored admits no legal path from the start to the end |
| GameEngine.PathScored | scripts/Game.cs:198-221 | every cell of a legal path from a scored start lies in a table closed under stepping |
| GameEngine.Offer | scripts/Game.cs:201-214 | the value offered to a neighbour is the expanded cell's score plus 0, 1 or 2, and it is plus 2 iff a wall is entered in transform mode |
| GameEngine.RelaxedStep | scripts/Game.cs:219-221 | writing a neighbour's offer only when the neighbour is new or the offer is strictly lower gives that neighbour the minimum of its old score and the offer, adds it to the keys, and leaves every other entry unchanged |
| GameEngine.NeighboursDistinct | scripts/Game.cs:126-155 | the neighbours of a cell are pairwise distinct and do not include the cell itself |
| GameEngine.RelaxingWrite | scripts/Game.cs:219-226 | an improving write extends the expansion: the arena grows by one child of the expanded node that carries the offer; the history grows by the new table; the open set loses nothing, gains only the new node, and gains it exactly when no node for its cell was open |
| GameEngine.PushWhenNone | scripts/Game.cs:219-225 | after the write and the conditional push, each node created during the expansion is open iff no node for its cell was open when the expansion began, and every scored cell without an open node was already scored without one then |
| GameEngine.NoOtherOpenAt | scripts/Game.cs:224 | the nodes opened during an expansion sit at neighbours already relaxed, so the scan for the next neighbour sees the same open cells as before the expansion |
| GameEngine.AnchoredAfterPush | scripts/Game.cs:219-225 | a cell that is scored gets an open node unless it already has one, so no scored cell is left without one |
| GameEngine.OpenGrows | scripts/Game.cs:224-225 | the conditional push keeps every open node and adds at most the new node, whose id is fresh |
| GameEngine.RelaxingSkip | scripts/Game.cs:219 | a neighbour whose score is no worse than its offer leaves the arena, open set, table and history unchanged |
| GameEngine.ExpandingWrite | scripts/Game.cs:219-226 | an improving write keeps the search invariant, the relaxation facts, the covering of every cell but the expanded one, and a termination measure no higher than at the start of the expansion |
| GameEngine.ExpandingEnds | scripts/Game.cs:198-227 | after all neighbours are relaxed the expanded cell is closed too, and the measure has not risen |
| GameEngine.Game.RelaxNeighbour | scripts/Game.cs:201-226 | relaxing one neighbour throws iff the expanded node is the parentless start on a wall, leaving the state unchanged; otherwise it extends the expansion by that neighbour: the min-formula write, a child carrying the offer, and a push exactly when no node for the neighbour's cell is open |
| GameEngine.Game.constructor | scripts/Game.cs:45-52 | uses the given tiles, or a fresh example map when none are given; size is the array's; start is (0, 0); end is the bottom-right cell |
| GameEngine.Game.ExampleTiles | scripts/Game.cs:61-81 | returns a fresh 8-by-8 array whose cell (x, y) is layout row y, column x |
| GameEngine.Game.SetTile | scripts/Game.cs:110-116 | off the board nothing changes; on the board exactly that cell gets the kind and every other cell keeps its tile |
| GameEngine.Game.GetPotentialNeighbors | scripts/Game.cs:126-137 | returns the in-bounds cells of the four directions, in order |
| GameEngine.Game.GetNeighbours | scripts/Game.cs:139-155 | returns the potential neighbours that may be entered under the mode's rule, in order |
| GameEngine.Game.ReconstructPath | scripts/Game.cs:157-168 | returns the chain from the start node to the node: first cell the start's, last cell the node's |
| GameEngine.Game.ExpandNode | scripts/Game.cs:198-227 | throws iff the node is a parentless wall with a neighbour. Otherwise: it counts all neighbours; the table's keys gain exactly the neighbours; each neighbour's score is the minimum of its old score and the offer, and every other entry is unchanged; the arena and the history only grow at the end, each new node a child of the expanded node carrying its offer; the open set loses no node and gains only new ones, and a new node is open iff no node for its cell was open before; every scored cell without an open node was already so before; the search invariant holds, every scored cell is waiting or closed, and the termination measure has not risen |
| GameEngine.Game.FindPath | scripts/Game.cs:170-231 | `Answered`: each exception iff its cause; a non-empty path is a legal path from start to end with cost in [0, path cost]; empty path iff cost −1; start = end gives `[start]`, 0, 0. `Recorded`: iterations = neighbours of the expanded cells; every expanded cell and its neighbours are keys of the final table; the score table only improves and ends no worse than the cost at the end; when the start is on the board and is not the end, a returned search expanded the start first; after exhaustion the final table holds the start, not the end, every scored cell on the board was expanded, and the table is closed under stepping. An empty path means no legal path exists (`Unreachable`) |

## Left out

- `Game.RandomTiles` (scripts/Game.cs:91-108): it uses the engine's global random generator and float arithmetic.
- `scripts/Map.cs`, `scripts/Tile.cs` and `scripts/HUD.cs` are not part of this model. They are scene-tree, drawing, input and label code.
- The engine's vector type is an unbounded integer pair, and costs and the `ulong` iteration counter are unbounded integers. No overflow is modelled; a board small enough to hold in memory keeps every value far below the limits.
- The static id counter of `AStarNode` is replaced by the node's index in the search's arena. Ids therefore restart at 0 for each search. Only their order within one search matters to the comparer, and that order is the same.
- The ordered set is modelled by its contents as a strictly ascending sequence, not as a balanced tree.
- Nodes are values in an arena indexed by id, and a parent reference is an index. A node created for an improving write is appended to the arena even when it is not pushed. Such a node is unreachable in the engine and harmless in the model.
- `GameEngine.Game.ExpandNode` and `GameEngine.Game.RelaxNeighbour` have no counterparts in the source. They are the inner `foreach` of `FindPath` and its body, split out as methods.
- GameEngine.Game.FindPath: the cost is not proved optimal. Because of the stale-node rule, only `0 <= cost <= PathCost(path)` is stated.
- `CostH` has no contract of its own. It is the constant 0, and `Frontier.ZeroEstimateOrdersByCostG` states its effect.
- The commented-out board-changed event (scripts/Game.cs:42-43, 51) is not modelled.
