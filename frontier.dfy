/**
 * Search nodes and the open set. The open set is an ordered set of nodes
 * under a comparer that looks at the estimated total cost first and at the
 * node id to break ties; it is modelled by its contents listed in ascending
 * order.
 */
module Frontier {
  import opened Optional
  import opened Grid

  /**
   * A search node: the cell reached, the accumulated cost G, the estimate H
   * of the remaining cost, and the id of the node it was reached from (the
   * start node has none). `id` is taken from a counter at creation.
   */
  datatype AStarNode = AStarNode(id: nat, position: Pos, costG: int, costH: int, parent: Option<nat>) {
    function CostF(): int { costG + costH }
  }

  /** Three-way integer comparison with the sign convention of CompareTo. */
  function CompareInt(a: int, b: int): int {
    if a < b then -1 else if a > b then 1 else 0
  }

  /** The open set's comparer: by CostF, then by id. */
  function Compare(a: AStarNode, b: AStarNode): (r: int)
    ensures r == 0 <==> a.CostF() == b.CostF() && a.id == b.id
    ensures r < 0 <==> a.CostF() < b.CostF() || (a.CostF() == b.CostF() && a.id < b.id)
  {
    var c := CompareInt(a.CostF(), b.CostF());
    if c == 0 then CompareInt(a.id, b.id) else c
  }

  predicate Precedes(a: AStarNode, b: AStarNode) {
    Compare(a, b) < 0
  }

  /** The comparer is antisymmetric, and the order it induces is transitive and total on distinct keys. */
  lemma CompareIsStrictOrder(a: AStarNode, b: AStarNode, c: AStarNode)
    ensures Compare(a, b) == -Compare(b, a)
    ensures Precedes(a, b) && Precedes(b, c) ==> Precedes(a, c)
    ensures Compare(a, b) != 0 ==> Precedes(a, b) || Precedes(b, a)
  {
  }

  /** Nodes listed in strictly ascending comparer order. */
  predicate Sorted(s: seq<AStarNode>) {
    forall i, j :: 0 <= i < j < |s| ==> Precedes(s[i], s[j])
  }

  /** Some member of `s` compares equal to `n`. */
  predicate HasEqual(s: seq<AStarNode>, n: AStarNode) {
    exists i :: 0 <= i < |s| && Compare(s[i], n) == 0
  }

  /**
   * Adds `n` to the ordered set `s`. As for any ordered set, nothing is added
   * when a member already compares equal to `n`.
   */
  function Add(s: seq<AStarNode>, n: AStarNode): (r: seq<AStarNode>)
    requires Sorted(s)
    ensures HasEqual(s, n) ==> r == s
    ensures !HasEqual(s, n) ==> multiset(r) == multiset(s) + multiset{n}
  {
    if s == [] then [n]
    else
      var c := Compare(n, s[0]);
      if c == 0 then s
      else if c < 0 then
        assert !HasEqual(s, n) by {
          forall i | 0 <= i < |s| ensures Compare(s[i], n) != 0 {
            assert i == 0 || Precedes(s[0], s[i]);
          }
        }
        [n] + s
      else
        assert s == [s[0]] + s[1..];
        assert HasEqual(s[1..], n) ==> HasEqual(s, n);
        [s[0]] + Add(s[1..], n)
  }

  /** Adding keeps the set ordered. */
  lemma {:induction false} AddKeepsOrder(s: seq<AStarNode>, n: AStarNode)
    requires Sorted(s)
    ensures Sorted(Add(s, n))
  {
    if s != [] && Compare(n, s[0]) > 0 {
      AddKeepsOrder(s[1..], n);
      var rest := Add(s[1..], n);
      forall e | e in rest ensures Precedes(s[0], e) {
        if !HasEqual(s[1..], n) {
          assert e in multiset(rest);
        }
      }
    }
  }

  /** Adding a node to the set grows it by at most one member, each of which was there before or is the node. */
  lemma AddMembers(s: seq<AStarNode>, n: AStarNode)
    requires Sorted(s)
    ensures |Add(s, n)| <= |s| + 1
    ensures forall e :: e in Add(s, n) <==> e in s || (e == n && !HasEqual(s, n))
  {
    var r := Add(s, n);
    if !HasEqual(s, n) {
      assert |multiset(r)| == |multiset(s)| + 1;
      forall e ensures e in r <==> e in s || e == n {
        assert e in r <==> e in multiset(r);
        assert e in s <==> e in multiset(s);
      }
    }
  }

  /**
   * The minimum of the set is its first member: it precedes every other
   * member, and among members of equal CostF it is the one created first.
   */
  lemma MinimumFirst(s: seq<AStarNode>)
    requires Sorted(s) && |s| > 0
    ensures forall e :: e in s[1..] ==> Precedes(s[0], e)
    ensures forall e :: e in s[1..] && e.CostF() == s[0].CostF() ==> s[0].id < e.id
  {
  }

  /** No position in `s` equals `p`: the engine's linear scan of the open set. */
  function NoneAt(s: seq<AStarNode>, p: Pos): (r: bool)
    ensures r <==> forall e :: e in s ==> e.position != p
  {
    if s == [] then true else s[0].position != p && NoneAt(s[1..], p)
  }

  /** With the constant-zero estimate the order is by G and then id: uniform-cost search. */
  lemma ZeroEstimateOrdersByCostG(a: AStarNode, b: AStarNode)
    requires a.costH == 0 && b.costH == 0
    ensures Precedes(a, b) <==> a.costG < b.costG || (a.costG == b.costG && a.id < b.id)
  {
  }
}
