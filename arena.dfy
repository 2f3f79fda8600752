/**
 * The nodes a search creates, indexed by id. Each node but the start node
 * names the node it was reached from; parents always have smaller ids, so the
 * parent links form a tree rooted at the start node and cannot cycle.
 */
module Arena {
  import opened Optional
  import opened Grid
  import opened Cost
  import opened Frontier

  predicate WellFormed(nodes: seq<AStarNode>) {
    && |nodes| > 0
    && (forall i :: 0 <= i < |nodes| ==> nodes[i].id == i)
    && (forall i :: 0 <= i < |nodes| ==> (nodes[i].parent.None? <==> i == 0))
    && (forall i :: 0 <= i < |nodes| && nodes[i].parent.Some? ==> nodes[i].parent.value < i)
  }

  /** Positions from node `i` up to the start node: the order the parent walk visits them. */
  function Ancestry(nodes: seq<AStarNode>, i: nat): seq<Pos>
    requires WellFormed(nodes) && i < |nodes|
    decreases i
  {
    match nodes[i].parent
    case None => [nodes[i].position]
    case Some(p) => [nodes[i].position] + Ancestry(nodes, p)
  }

  /** Positions from the start node down to node `i`. */
  function Chain(nodes: seq<AStarNode>, i: nat): seq<Pos>
    requires WellFormed(nodes) && i < |nodes|
    decreases i
  {
    match nodes[i].parent
    case None => [nodes[i].position]
    case Some(p) => Chain(nodes, p) + [nodes[i].position]
  }

  function Reversed(s: seq<Pos>): seq<Pos> {
    if s == [] then [] else Reversed(s[1..]) + [s[0]]
  }

  /** Reversing the parent walk gives the chain from the start node. */
  lemma {:induction false} AncestryReversed(nodes: seq<AStarNode>, i: nat)
    requires WellFormed(nodes) && i < |nodes|
    ensures Reversed(Ancestry(nodes, i)) == Chain(nodes, i)
    decreases i
  {
    var a := Ancestry(nodes, i);
    assert a[1..] == if nodes[i].parent.None? then [] else Ancestry(nodes, nodes[i].parent.value);
    if nodes[i].parent.Some? {
      AncestryReversed(nodes, nodes[i].parent.value);
    }
  }

  /**
   * A chain has at least one cell, begins at the start node's position, ends at
   * node `i`'s, and its second-to-last cell (when there is one) is the parent's.
   */
  lemma {:induction false} ChainEnds(nodes: seq<AStarNode>, i: nat)
    requires WellFormed(nodes) && i < |nodes|
    ensures |Chain(nodes, i)| >= 1
    ensures Chain(nodes, i)[0] == nodes[0].position
    ensures Chain(nodes, i)[|Chain(nodes, i)| - 1] == nodes[i].position
    ensures |Chain(nodes, i)| == 1 <==> i == 0
    ensures i != 0 ==> Chain(nodes, i)[|Chain(nodes, i)| - 2] == nodes[nodes[i].parent.value].position
    decreases i
  {
    if i != 0 {
      ChainEnds(nodes, nodes[i].parent.value);
    }
  }

  /** Appending a node leaves the chains of the older nodes as they were. */
  lemma {:induction false} ChainExtend(nodes: seq<AStarNode>, n: AStarNode, i: nat)
    requires WellFormed(nodes) && WellFormed(nodes + [n]) && i < |nodes|
    ensures Chain(nodes + [n], i) == Chain(nodes, i)
    decreases i
  {
    assert (nodes + [n])[i] == nodes[i];
    if nodes[i].parent.Some? {
      ChainExtend(nodes, n, nodes[i].parent.value);
    }
  }

  /** Non-start node `i` was reached by a legal step from its parent, which lies on the board. */
  predicate LinkedAt(tiles: array2<TileType>, canTransform: bool, nodes: seq<AStarNode>, i: nat)
    reads tiles
    requires WellFormed(nodes) && 0 < i < |nodes|
  {
    && InBounds(SizeOf(tiles), nodes[nodes[i].parent.value].position)
    && nodes[i].position in Neighbours(tiles, nodes[nodes[i].parent.value].position, canTransform)
  }

  /** Every non-start node was reached by a legal step from its parent. */
  predicate Linked(tiles: array2<TileType>, canTransform: bool, nodes: seq<AStarNode>)
    reads tiles
  {
    && WellFormed(nodes)
    && InBounds(SizeOf(tiles), nodes[0].position)
    && (forall i :: 0 < i < |nodes| ==> LinkedAt(tiles, canTransform, nodes, i))
  }

  /** In a linked arena the chain to any node is a legal path from the start node to it. */
  lemma {:induction false} ChainIsPath(tiles: array2<TileType>, canTransform: bool, nodes: seq<AStarNode>, i: nat)
    requires Linked(tiles, canTransform, nodes) && i < |nodes|
    ensures IsPath(tiles, Chain(nodes, i), canTransform, nodes[0].position, nodes[i].position)
    decreases i
  {
    if i != 0 {
      var p := nodes[i].parent.value;
      assert LinkedAt(tiles, canTransform, nodes, i);
      ChainIsPath(tiles, canTransform, nodes, p);
      NeighboursShape(tiles, nodes[p].position, canTransform);
      ChainEnds(nodes, p);
    }
  }
}
