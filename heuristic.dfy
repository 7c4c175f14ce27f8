/**
 * The heuristic estimates of the remaining cost from a cell to the target.
 * The Manhattan case and the default case of the switch compute the same value.
 */
module Heuristics {
  import opened Grid

  /** `Math.abs(x - target.x) + Math.abs(y - target.y)`. */
  function Manhattan(x: int, y: int, target: Vector2): (r: int)
    ensures r >= 0
    ensures r == 0 <==> x == target.x && y == target.y
  {
    Abs(x - target.x) + Abs(y - target.y)
  }

  /** One orthogonal step changes the Manhattan estimate by at most one: the estimate is consistent. */
  lemma ManhattanConsistent(a: Vector2, b: Vector2, target: Vector2)
    requires Adjacent(a, b)
    ensures Manhattan(a.x, a.y, target) <= Manhattan(b.x, b.y, target) + 1
  {
  }

  /** The Manhattan estimate never exceeds the number of steps of a walk to the target: it is admissible. */
  lemma {:induction false} ManhattanAdmissible(w: seq<Vector2>)
    requires |w| > 0
    requires forall i :: 0 <= i < |w| - 1 ==> Adjacent(w[i], w[i + 1])
    ensures Manhattan(w[0].x, w[0].y, w[|w| - 1]) <= |w| - 1
  {
    if |w| > 1 {
      var tail := w[1..];
      forall i | 0 <= i < |tail| - 1 ensures Adjacent(tail[i], tail[i + 1]) {
        assert tail[i] == w[i + 1] && tail[i + 1] == w[i + 2];
      }
      ManhattanAdmissible(tail);
      ManhattanConsistent(w[0], w[1], w[|w| - 1]);
    }
  }

  /**
   * The ManhattanRandom case: the Manhattan value plus `Math.random() * 2`, with the random
   * draw passed in as `noise`.
   */
  function ManhattanRandom(x: int, y: int, target: Vector2, noise: real): (r: real)
    requires 0.0 <= noise < 2.0
    ensures Manhattan(x, y, target) as real <= r < Manhattan(x, y, target) as real + 2.0
  {
    Manhattan(x, y, target) as real + noise
  }

  /** With a positive draw the random variant is positive on the target itself, where no step is left: it is not admissible. */
  lemma ManhattanRandomOverestimates(target: Vector2, noise: real)
    requires 0.0 < noise < 2.0
    ensures ManhattanRandom(target.x, target.y, target, noise) > 0.0
  {
  }
}
