/**
 * The terrain grid as the search reads it: `terrainGrid[x][y]`, where the value 0
 * marks a free cell. The bounds are taken from the grid itself: x against the
 * number of rows, y against the length of the first row.
 */
module Grid {

  /** A cell coordinate. */
  datatype Vector2 = Vector2(x: int, y: int)

  /** `Math.abs` on integers. */
  function Abs(n: int): (r: nat)
    ensures r == n || r == -n
  {
    if n < 0 then -n else n
  }

  /** The bounds tests of getNeighbors: x below the number of rows, y below the first row's length. */
  predicate InBounds(grid: seq<seq<int>>, c: Vector2) {
    0 <= c.x < |grid| && 0 <= c.y < |grid[0]|
  }

  /**
   * The filter of getNeighbors: inside the bounds and of terrain value 0.
   * A row shorter than the first row reads as `undefined` beyond its end, which is not 0.
   * For an empty grid the x test fails first, so the first row is never read.
   */
  predicate IsFree(grid: seq<seq<int>>, c: Vector2) {
    InBounds(grid, c) && c.y < |grid[c.x]| && grid[c.x][c.y] == 0
  }

  /** One orthogonal unit step apart. */
  predicate Adjacent(a: Vector2, b: Vector2) {
    Abs(a.x - b.x) + Abs(a.y - b.y) == 1
  }

  /** Every coordinate inside the bounds the source checks. */
  ghost function Cells(grid: seq<seq<int>>): set<Vector2> {
    set x, y | 0 <= x < |grid| && 0 <= y < |grid[0]| :: Vector2(x, y)
  }

  /** The grid's cells are exactly the coordinates that pass the bounds tests. */
  lemma CellsAreInBounds(grid: seq<seq<int>>, c: Vector2)
    ensures c in Cells(grid) <==> InBounds(grid, c)
  {
    if InBounds(grid, c) {
      assert c == Vector2(c.x, c.y);
    }
  }

  /** Every cell that passes the filter lies in the finite set of grid cells. */
  lemma FreeInCells(grid: seq<seq<int>>, c: Vector2)
    requires IsFree(grid, c)
    ensures c in Cells(grid)
  {
    CellsAreInBounds(grid, c);
  }

  /** A walk the search could follow: unit orthogonal steps, every cell after the first one free. */
  ghost predicate IsWalk(grid: seq<seq<int>>, w: seq<Vector2>) {
    && |w| > 0
    && (forall i :: 0 <= i < |w| - 1 ==> Adjacent(w[i], w[i + 1]))
    && (forall i :: 1 <= i < |w| ==> IsFree(grid, w[i]))
  }

  /** No step leads out of `s`: every free neighbour of a member is a member. */
  ghost predicate ClosedUnderSteps(grid: seq<seq<int>>, s: set<Vector2>) {
    forall c, d :: c in s && Adjacent(c, d) && IsFree(grid, d) ==> d in s
  }

  /** A walk that starts inside a set closed under steps never leaves it. */
  lemma {:induction false} WalkStaysInside(grid: seq<seq<int>>, s: set<Vector2>, w: seq<Vector2>)
    requires ClosedUnderSteps(grid, s) && IsWalk(grid, w) && w[0] in s
    ensures forall i :: 0 <= i < |w| ==> w[i] in s
  {
    if |w| > 1 {
      assert Adjacent(w[0], w[1]) && IsFree(grid, w[1]);
      var tail := w[1..];
      assert IsWalk(grid, tail) by {
        forall i | 0 <= i < |tail| - 1 ensures Adjacent(tail[i], tail[i + 1]) {
          assert tail[i] == w[i + 1] && tail[i + 1] == w[i + 2];
        }
        forall i | 1 <= i < |tail| ensures IsFree(grid, tail[i]) {
          assert tail[i] == w[i + 1];
        }
      }
      WalkStaysInside(grid, s, tail);
      forall i | 0 <= i < |w| ensures w[i] in s {
        if i > 0 { assert w[i] == tail[i - 1]; }
      }
    }
  }
}
