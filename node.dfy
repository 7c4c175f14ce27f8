/**
 * Search nodes and the paths read off their parent links.
 */
module Nodes {
  import opened Wrappers
  import opened Grid
  import opened Heuristics

  /**
   * A search node: its cell, the cost `g` from the start, the estimate `h`, the priority
   * `f` and the node it was reached from (`None` for the start node).
   */
  datatype Node = Node(x: int, y: int, g: int, h: int, f: int, parent: Option<Node>)

  /**
   * The cell of a node. The closed set is keyed by the string `${x},${y}`, which is
   * one-to-one on integer pairs, so the pair itself stands for the key.
   */
  function Key(n: Node): Vector2 {
    Vector2(n.x, n.y)
  }

  /** The cells of a list of nodes. */
  ghost function KeysOf(s: seq<Node>): set<Vector2> {
    set n | n in s :: Key(n)
  }

  /** No cell occurs twice. */
  ghost predicate DistinctCells(s: seq<Node>) {
    forall i, j :: 0 <= i < j < |s| ==> Key(s[i]) != Key(s[j])
  }

  /** The nodes met when following parent links from `n`, `n` first, the parentless node last. */
  function Ancestry(n: Node): (r: seq<Node>)
    decreases n
    ensures 0 < |r| && r[0] == n && r[|r| - 1].parent.None?
    ensures forall i :: 0 <= i < |r| - 1 ==> HasParentAt(r, i)
  {
    match n.parent
    case None => [n]
    case Some(p) =>
      var b := Ancestry(p);
      var r := [n] + b;
      assert forall i | 0 < i < |r| - 1 :: HasParentAt(r, i) by {
        forall i | 0 < i < |r| - 1 ensures HasParentAt(r, i) {
          assert HasParentAt(b, i - 1);
        }
      }
      r
  }

  /** The node at `i` has the node after it as parent. */
  predicate HasParentAt(r: seq<Node>, i: int)
    requires 0 <= i < |r| - 1
  {
    r[i].parent == Some(r[i + 1])
  }

  /** `Array.prototype.reverse`. */
  function Reversed<T>(s: seq<T>): (r: seq<T>)
    ensures |r| == |s|
    ensures forall i :: 0 <= i < |s| ==> r[i] == s[|s| - 1 - i]
  {
    if s == [] then [] else Reversed(s[1..]) + [s[0]]
  }

  /**
   * `n` is a node the search builds from `start` with estimates measured to `goal`: the start
   * node (cost 0, no parent), or a free orthogonal neighbour of such a node, one step dearer.
   */
  ghost predicate Derived(grid: seq<seq<int>>, start: Vector2, goal: Vector2, n: Node)
    decreases n
  {
    && n.h == Manhattan(n.x, n.y, goal)
    && n.f == n.g + n.h
    && match n.parent
       case None => Key(n) == start && n.g == 0
       case Some(p) =>
         && n.g == p.g + 1
         && Adjacent(Key(p), Key(n))
         && IsFree(grid, Key(n))
         && Derived(grid, start, goal, p)
  }

  /**
   * A path as findPath returns it: it starts at `start` with the parentless node, every later
   * node is a free orthogonal neighbour of the one before it and has that node as parent, the
   * i-th node has cost i, and every node carries the Manhattan estimate to `goal`.
   */
  ghost predicate IsSearchPath(grid: seq<seq<int>>, start: Vector2, goal: Vector2, p: seq<Node>) {
    && 0 < |p|
    && Key(p[0]) == start
    && p[0].parent.None?
    && (forall i :: 0 < i < |p| ==> StepOk(grid, p, i))
    && (forall i :: 0 <= i < |p| ==> CostOk(goal, p, i))
  }

  /** The node at `i` is a free orthogonal neighbour of the node before it and has it as parent. */
  ghost predicate StepOk(grid: seq<seq<int>>, p: seq<Node>, i: int)
    requires 0 < i < |p|
  {
    p[i].parent == Some(p[i - 1]) && Adjacent(Key(p[i - 1]), Key(p[i])) && IsFree(grid, Key(p[i]))
  }

  /** The node at `i` has cost i, the Manhattan estimate to `goal` and priority cost plus estimate. */
  ghost predicate CostOk(goal: Vector2, p: seq<Node>, i: int)
    requires 0 <= i < |p|
  {
    p[i].g == i && p[i].h == Manhattan(p[i].x, p[i].y, goal) && p[i].f == p[i].g + p[i].h
  }

  /**
   * Along the parent links of a derived node the cost drops by one per link down to 0 at the
   * start, each link is a unit step onto a free cell, and every node carries the estimate to `goal`.
   */
  lemma {:induction false} DerivedAncestry(grid: seq<seq<int>>, start: Vector2, goal: Vector2, n: Node)
    requires Derived(grid, start, goal, n)
    ensures |Ancestry(n)| == n.g + 1
    ensures Key(Ancestry(n)[n.g]) == start
    ensures forall k :: 0 <= k < |Ancestry(n)| ==> LinkOk(grid, goal, Ancestry(n), k) && Ancestry(n)[k].g == n.g - k
  {
    match n.parent
    case None =>
    case Some(p) =>
      DerivedAncestry(grid, start, goal, p);
      var b := Ancestry(p);
      assert Ancestry(n) == [n] + b;
      ConsLinks(grid, goal, n, b);
      assert ([n] + b)[n.g] == b[p.g];
  }

  /** Putting a node in front of a chain whose head is its parent's cell extends the link facts. */
  lemma ConsLinks(grid: seq<seq<int>>, goal: Vector2, n: Node, b: seq<Node>)
    requires 0 < |b| && Adjacent(Key(b[0]), Key(n)) && IsFree(grid, Key(n))
    requires n.h == Manhattan(n.x, n.y, goal) && n.f == n.g + n.h
    requires forall k :: 0 <= k < |b| ==> LinkOk(grid, goal, b, k) && b[k].g == n.g - 1 - k
    ensures forall k :: 0 <= k < |[n] + b| ==> LinkOk(grid, goal, [n] + b, k) && ([n] + b)[k].g == n.g - k
  {
    var a := [n] + b;
    forall k | 0 <= k < |a| ensures LinkOk(grid, goal, a, k) && a[k].g == n.g - k {
      if k == 0 {
        assert a[1] == b[0];
      } else {
        assert a[k] == b[k - 1];
        assert LinkOk(grid, goal, b, k - 1);
        if k < |a| - 1 {
          assert a[k + 1] == b[k];
        }
      }
    }
  }

  /** The facts Derived gives about the k-th node of an ancestry and the link to its parent. */
  ghost predicate LinkOk(grid: seq<seq<int>>, goal: Vector2, a: seq<Node>, k: int)
    requires 0 <= k < |a|
  {
    && a[k].h == Manhattan(a[k].x, a[k].y, goal)
    && a[k].f == a[k].g + a[k].h
    && (k < |a| - 1 ==> Adjacent(Key(a[k + 1]), Key(a[k])) && IsFree(grid, Key(a[k])))
  }

  /** Reversing the parent links of a derived node gives a search path from the start to that node. */
  lemma PathOfDerived(grid: seq<seq<int>>, start: Vector2, goal: Vector2, n: Node)
    requires Derived(grid, start, goal, n)
    ensures IsSearchPath(grid, start, goal, Reversed(Ancestry(n)))
    ensures |Reversed(Ancestry(n))| == n.g + 1
    ensures Reversed(Ancestry(n))[n.g] == n
  {
    DerivedAncestry(grid, start, goal, n);
    var a := Ancestry(n);
    var p := Reversed(a);
    assert p[0] == a[|a| - 1];
    forall i | 0 < i < |p| ensures StepOk(grid, p, i) {
      var k := |a| - 1 - i;
      assert p[i] == a[k] && p[i - 1] == a[k + 1];
      assert LinkOk(grid, goal, a, k);
      assert HasParentAt(a, k);
    }
    forall i | 0 <= i < |p| ensures CostOk(goal, p, i) {
      assert p[i] == a[|a| - 1 - i];
      assert LinkOk(grid, goal, a, |a| - 1 - i);
    }
  }

  /** A list without repeated cells has as many cells as nodes. */
  lemma {:induction false} DistinctCellsCount(s: seq<Node>)
    requires DistinctCells(s)
    ensures |KeysOf(s)| == |s|
  {
    if s != [] {
      var tail := s[1..];
      assert DistinctCells(tail) by {
        forall i, j | 0 <= i < j < |tail| ensures Key(tail[i]) != Key(tail[j]) {
          assert tail[i] == s[i + 1] && tail[j] == s[j + 1];
        }
      }
      DistinctCellsCount(tail);
      assert KeysOf(s) == {Key(s[0])} + KeysOf(tail) by {
        assert s == [s[0]] + tail;
      }
      assert forall k | 0 <= k < |tail| :: Key(tail[k]) != Key(s[0]) by {
        forall k | 0 <= k < |tail| ensures Key(tail[k]) != Key(s[0]) {
          assert tail[k] == s[k + 1];
        }
      }
    }
  }

  /** Reversal keeps the cells distinct. */
  lemma ReversedDistinct(s: seq<Node>)
    requires DistinctCells(s)
    ensures DistinctCells(Reversed(s))
  {
    var r := Reversed(s);
    forall i, j | 0 <= i < j < |r| ensures Key(r[i]) != Key(r[j]) {
      assert r[i] == s[|s| - 1 - i] && r[j] == s[|s| - 1 - j];
    }
  }
}
