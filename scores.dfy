/**
 * The best-known-cost table (gScore): how one write may change it, what that
 * means for its whole history, and the measures that bound how often a
 * search can improve it.
 */
module Scores {
  import opened Grid

  type ScoreTable = map<Pos, int>

  predicate NonNegative(g: ScoreTable) {
    forall k :: k in g ==> g[k] >= 0
  }

  /** `after` is `before` with one entry written: a new key, or an existing key lowered. */
  predicate Improvement(before: ScoreTable, after: ScoreTable) {
    exists k :: k in after && after == before[k := after[k]] && (k !in before || after[k] < before[k])
  }

  /** Every key of `earlier` is in `later` with a value no larger. */
  predicate NoWorse(later: ScoreTable, earlier: ScoreTable) {
    forall k :: k in earlier ==> k in later && later[k] <= earlier[k]
  }

  /**
   * If each snapshot of the table follows from the previous one by a single
   * improvement, keys are never lost and no value ever increases.
   */
  lemma {:induction false} HistoryNeverWorsens(h: seq<ScoreTable>)
    requires forall i :: 0 < i < |h| ==> Improvement(h[i - 1], h[i])
    ensures forall i, j :: 0 <= i <= j < |h| ==> NoWorse(h[j], h[i])
  {
    if |h| > 1 {
      var init := h[..|h| - 1];
      HistoryNeverWorsens(init);
      var last := h[|h| - 1];
      assert Improvement(h[|h| - 2], last);
      forall i | 0 <= i < |h| ensures NoWorse(last, h[i]) {
        if i < |h| - 1 {
          assert NoWorse(h[|h| - 2], init[i]);
        }
      }
    }
  }

  // Termination measures for the search loop.

  /** The cells of a board of the given size that have no entry yet. */
  function Absent(size: Pos, g: ScoreTable): set<Pos> {
    set x, y | 0 <= x < size.x && 0 <= y < size.y && Pos(x, y) !in g :: Pos(x, y)
  }

  lemma AbsentShrinks(size: Pos, g: ScoreTable, k: Pos, v: int)
    requires InBounds(size, k)
    ensures k !in g ==> Absent(size, g[k := v]) < Absent(size, g)
    ensures k in g ==> Absent(size, g[k := v]) == Absent(size, g)
  {
    if k !in g {
      assert k in Absent(size, g);
    }
  }

  function ValueAt(g: ScoreTable, p: Pos): int {
    if p in g then g[p] else 0
  }

  /** Sum of the entries for column `x`, rows 0 to h - 1. */
  function ColumnTotal(g: ScoreTable, x: int, h: nat): int {
    if h == 0 then 0 else ColumnTotal(g, x, h - 1) + ValueAt(g, Pos(x, h - 1))
  }

  /** Sum of the entries of the cells of a w-by-h board. */
  function Total(g: ScoreTable, w: nat, h: nat): int {
    if w == 0 then 0 else Total(g, w - 1, h) + ColumnTotal(g, w - 1, h)
  }

  lemma {:induction false} TotalNonNegative(g: ScoreTable, w: nat, h: nat)
    requires NonNegative(g)
    ensures Total(g, w, h) >= 0
  {
    if w > 0 {
      TotalNonNegative(g, w - 1, h);
      ColumnNonNegative(g, w - 1, h);
    }
  }

  lemma {:induction false} ColumnNonNegative(g: ScoreTable, x: int, h: nat)
    requires NonNegative(g)
    ensures ColumnTotal(g, x, h) >= 0
  {
    if h > 0 {
      ColumnNonNegative(g, x, h - 1);
    }
  }

  lemma {:induction false} ColumnUpdate(g: ScoreTable, x: int, h: nat, k: Pos, v: int)
    requires k in g
    ensures ColumnTotal(g[k := v], x, h) ==
      ColumnTotal(g, x, h) + (if k.x == x && 0 <= k.y < h then v - g[k] else 0)
  {
    if h > 0 {
      ColumnUpdate(g, x, h - 1, k, v);
    }
  }

  lemma {:induction false} TotalUpdate(g: ScoreTable, w: nat, h: nat, k: Pos, v: int)
    requires k in g
    ensures Total(g[k := v], w, h) ==
      Total(g, w, h) + (if 0 <= k.x < w && 0 <= k.y < h then v - g[k] else 0)
  {
    if w > 0 {
      TotalUpdate(g, w - 1, h, k, v);
      ColumnUpdate(g, w - 1, h, k, v);
    }
  }
}
