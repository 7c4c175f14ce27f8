/**
 * getNeighbors: the four orthogonal neighbours of a node that lie inside the grid on free
 * terrain, each turned into a child node one step dearer than its parent.
 */
module Neighbors {
  import opened Wrappers
  import opened Grid
  import opened Heuristics
  import opened Nodes

  /** The direction offsets, in the order getNeighbors tries them. */
  const Dirs: seq<Vector2> := [Vector2(0, -1), Vector2(0, 1), Vector2(-1, 0), Vector2(1, 0)]

  /** The cell reached from `node` by offset `d`. */
  function Offset(node: Node, d: Vector2): Vector2 {
    Vector2(node.x + d.x, node.y + d.y)
  }

  /** `nb` is a node getNeighbors may build from `node`, with the estimate measured to `goal`. */
  ghost predicate IsChild(grid: seq<seq<int>>, goal: Vector2, node: Node, nb: Node) {
    && Adjacent(Key(node), Key(nb))
    && IsFree(grid, Key(nb))
    && nb.g == node.g + 1
    && nb.h == Manhattan(nb.x, nb.y, goal)
    && nb.f == nb.g + nb.h
    && nb.parent == Some(node)
  }

  /** The offset that leads from `node` to the cell of `nb`. */
  function OffsetOf(node: Node, nb: Node): Vector2 {
    Vector2(nb.x - node.x, nb.y - node.y)
  }

  /** The map / filter / map pipeline of getNeighbors, over the offsets `dirs`. */
  function Expand(grid: seq<seq<int>>, goal: Vector2, node: Node, dirs: seq<Vector2>): (r: seq<Node>)
    ensures |r| <= |dirs|
  {
    if dirs == [] then []
    else
      var c := Offset(node, dirs[0]);
      var rest := Expand(grid, goal, node, dirs[1..]);
      if IsFree(grid, c) then
        var h := Manhattan(c.x, c.y, goal);
        [Node(c.x, c.y, node.g + 1, h, node.g + 1 + h, Some(node))] + rest
      else rest
  }

  /** Every node the pipeline builds is a child of `node` reached by one of the offsets. */
  lemma {:induction false} ExpandSound(grid: seq<seq<int>>, goal: Vector2, node: Node, dirs: seq<Vector2>)
    requires forall d :: d in dirs ==> Abs(d.x) + Abs(d.y) == 1
    ensures forall i :: 0 <= i < |Expand(grid, goal, node, dirs)| ==>
      IsChild(grid, goal, node, Expand(grid, goal, node, dirs)[i]) && OffsetOf(node, Expand(grid, goal, node, dirs)[i]) in dirs
  {
    if dirs != [] {
      ExpandSound(grid, goal, node, dirs[1..]);
      var rest := Expand(grid, goal, node, dirs[1..]);
      var r := Expand(grid, goal, node, dirs);
      if IsFree(grid, Offset(node, dirs[0])) {
        HeadIsChild(grid, goal, node, dirs[0]);
        forall i | 0 < i < |r| ensures IsChild(grid, goal, node, r[i]) && OffsetOf(node, r[i]) in dirs {
          assert r[i] == rest[i - 1];
          assert OffsetOf(node, rest[i - 1]) in dirs[1..];
        }
      } else {
        forall i | 0 <= i < |r| ensures IsChild(grid, goal, node, r[i]) && OffsetOf(node, r[i]) in dirs {
          assert OffsetOf(node, rest[i]) in dirs[1..];
        }
      }
    }
  }

  /** The node built for a unit offset onto a free cell is a child reached by that offset. */
  lemma HeadIsChild(grid: seq<seq<int>>, goal: Vector2, node: Node, d: Vector2)
    requires Abs(d.x) + Abs(d.y) == 1 && IsFree(grid, Offset(node, d))
    ensures var c := Offset(node, d);
      var nb := Node(c.x, c.y, node.g + 1, Manhattan(c.x, c.y, goal), node.g + 1 + Manhattan(c.x, c.y, goal), Some(node));
      IsChild(grid, goal, node, nb) && OffsetOf(node, nb) == d
  {
  }

  /** Every offset that leads to a free cell yields a node at that cell. */
  lemma {:induction false} ExpandComplete(grid: seq<seq<int>>, goal: Vector2, node: Node, dirs: seq<Vector2>)
    ensures forall d :: d in dirs && IsFree(grid, Offset(node, d)) ==> Offset(node, d) in KeysOf(Expand(grid, goal, node, dirs))
  {
    if dirs != [] {
      ExpandComplete(grid, goal, node, dirs[1..]);
      var rest := Expand(grid, goal, node, dirs[1..]);
      var r := Expand(grid, goal, node, dirs);
      assert forall m :: m in rest ==> m in r;
      assert forall d :: d in dirs ==> d == dirs[0] || d in dirs[1..];
      if IsFree(grid, Offset(node, dirs[0])) {
        assert Key(r[0]) == Offset(node, dirs[0]);
      }
    }
  }

  /** Distinct offsets yield distinct cells. */
  lemma {:induction false} ExpandDistinct(grid: seq<seq<int>>, goal: Vector2, node: Node, dirs: seq<Vector2>)
    requires forall d :: d in dirs ==> Abs(d.x) + Abs(d.y) == 1
    requires forall i, j :: 0 <= i < j < |dirs| ==> dirs[i] != dirs[j]
    ensures DistinctCells(Expand(grid, goal, node, dirs))
  {
    if dirs != [] {
      var tail := dirs[1..];
      forall a, b | 0 <= a < b < |tail| ensures tail[a] != tail[b] {
        assert tail[a] == dirs[a + 1] && tail[b] == dirs[b + 1];
      }
      ExpandDistinct(grid, goal, node, tail);
      ExpandSound(grid, goal, node, tail);
      var rest := Expand(grid, goal, node, tail);
      var r := Expand(grid, goal, node, dirs);
      if IsFree(grid, Offset(node, dirs[0])) {
        assert dirs[0] !in tail;
        var r0 := Expand(grid, goal, node, dirs)[0];
        assert OffsetOf(node, r0) == dirs[0];
        forall i | 0 <= i < |rest| ensures Key(rest[i]) != Key(r0) {
          assert OffsetOf(node, rest[i]) in tail;
        }
        ConsDistinct(r0, rest);
      }
    }
  }

  /** A node whose cell is not among a list's distinct cells can be put in front of it. */
  lemma ConsDistinct(n: Node, rest: seq<Node>)
    requires DistinctCells(rest)
    requires forall i :: 0 <= i < |rest| ==> Key(rest[i]) != Key(n)
    ensures DistinctCells([n] + rest)
  {
    var r := [n] + rest;
    forall i, j | 0 <= i < j < |r| ensures Key(r[i]) != Key(r[j]) {
      assert r[j] == rest[j - 1];
      if i > 0 {
        assert r[i] == rest[i - 1];
      }
    }
  }

  /** A unit orthogonal step is one of the four offsets. */
  lemma AdjacentIsDir(a: Node, c: Vector2)
    requires Adjacent(Key(a), c)
    ensures Vector2(c.x - a.x, c.y - a.y) in Dirs
    ensures Offset(a, Vector2(c.x - a.x, c.y - a.y)) == c
  {
  }

  /**
   * `getNeighbors(node)`: every node returned is a free orthogonal neighbour of `node` with
   * cost `node.g + 1`, the estimate to `goal`, priority cost plus estimate and `node` as parent;
   * every free orthogonal neighbour cell is among them, and none occurs twice.
   */
  function GetNeighbors(grid: seq<seq<int>>, goal: Vector2, node: Node): (r: seq<Node>)
    ensures |r| <= 4
    ensures forall i :: 0 <= i < |r| ==> IsChild(grid, goal, node, r[i])
    ensures forall c :: Adjacent(Key(node), c) && IsFree(grid, c) ==> c in KeysOf(r)
    ensures DistinctCells(r)
  {
    ExpandSound(grid, goal, node, Dirs);
    ExpandComplete(grid, goal, node, Dirs);
    ExpandDistinct(grid, goal, node, Dirs);
    var r := Expand(grid, goal, node, Dirs);
    assert forall c :: Adjacent(Key(node), c) && IsFree(grid, c) ==> c in KeysOf(r) by {
      forall c | Adjacent(Key(node), c) && IsFree(grid, c) ensures c in KeysOf(r) {
        AdjacentIsDir(node, c);
      }
    }
    r
  }

  /** A child of a derived node is derived. */
  lemma ChildDerived(grid: seq<seq<int>>, start: Vector2, goal: Vector2, node: Node, nb: Node)
    requires Derived(grid, start, goal, node)
    requires IsChild(grid, goal, node, nb)
    ensures Derived(grid, start, goal, nb)
  {
  }
}
