/**
 * findPath: A* over the terrain grid with the Manhattan estimate, an open list that is
 * re-sorted by priority and shifted from the front, and a closed set of cells.
 */
module Pathfinding {
  import opened Wrappers
  import opened Grid
  import opened Heuristics
  import opened Nodes
  import opened Frontier
  import opened Neighbors

  /** The cells a search from `start` can ever close: the grid's cells and the start itself, which is not checked. */
  ghost function Universe(grid: seq<seq<int>>, start: Vector2): set<Vector2> {
    Cells(grid) + {start}
  }

  /** The number of cells of `universe` not yet closed. */
  ghost function Unclosed(universe: set<Vector2>, closed: set<Vector2>): nat {
    |universe - closed|
  }

  /** Every node behind `n` on its parent links has a closed cell, and no cell repeats along the links. */
  ghost predicate Settled(n: Node, closed: set<Vector2>) {
    && (forall k :: 1 <= k < |Ancestry(n)| ==> Key(Ancestry(n)[k]) in closed)
    && DistinctCells(Ancestry(n))
  }

  /** Every open node was built by the search from `start`, is settled, and lies in the universe. */
  ghost predicate FrontierOk(grid: seq<seq<int>>, start: Vector2, goal: Vector2, open: seq<Node>, closed: set<Vector2>) {
    forall n :: n in open ==> Derived(grid, start, goal, n) && Settled(n, closed) && Key(n) in Universe(grid, start)
  }

  /** Every free neighbour of a closed cell is closed or the cell of an open node. */
  ghost predicate Covered(grid: seq<seq<int>>, open: seq<Node>, closed: set<Vector2>) {
    forall c, d :: c in closed && Adjacent(c, d) && IsFree(grid, d) ==> d in closed || d in KeysOf(open)
  }

  /** A child pushed from a closed, settled node onto a cell that is not closed is settled. */
  lemma ChildSettled(node: Node, nb: Node, closed: set<Vector2>)
    requires Settled(node, closed) && Key(node) in closed
    requires nb.parent == Some(node) && Key(nb) !in closed
    ensures Settled(nb, closed)
  {
    var a := Ancestry(nb);
    var b := Ancestry(node);
    assert a == [nb] + b;
    forall k | 1 <= k < |a| ensures Key(a[k]) in closed {
      assert a[k] == b[k - 1];
    }
    forall i, j | 0 <= i < j < |a| ensures Key(a[i]) != Key(a[j]) {
      assert a[j] == b[j - 1];
      if i > 0 {
        assert a[i] == b[i - 1];
      }
    }
  }

  /** Closing more cells keeps a node settled. */
  lemma SettledGrows(n: Node, closed: set<Vector2>, closed': set<Vector2>)
    requires Settled(n, closed) && closed <= closed'
    ensures Settled(n, closed')
  {
  }

  /**
   * One expansion keeps the frontier invariant: the entries left after the shift were open before,
   * and every entry pushed is a child of the node just closed, on a cell that is not closed.
   */
  lemma FrontierKept(grid: seq<seq<int>>, start: Vector2, goal: Vector2, before: seq<Node>, closedBefore: set<Vector2>,
                     current: Node, rest: seq<Node>, closed: set<Vector2>, neighbors: seq<Node>, open: seq<Node>)
    requires FrontierOk(grid, start, goal, before, closedBefore)
    requires multiset(before) == multiset(rest) + multiset{current}
    requires closed == closedBefore + {Key(current)}
    requires neighbors == GetNeighbors(grid, goal, current)
    requires forall n :: n in open ==> n in rest || (n in neighbors && Key(n) !in closed)
    ensures FrontierOk(grid, start, goal, open, closed)
  {
    assert current in multiset(before);
    SettledGrows(current, closedBefore, closed);
    forall n | n in open
      ensures Derived(grid, start, goal, n) && Settled(n, closed) && Key(n) in Universe(grid, start)
    {
      if n in rest {
        assert n in multiset(before);
        SettledGrows(n, closedBefore, closed);
      } else {
        var j :| 0 <= j < |neighbors| && neighbors[j] == n;
        ChildDerived(grid, start, goal, current, n);
        ChildSettled(current, n, closed);
        FreeInCells(grid, Key(n));
      }
    }
  }

  /**
   * One expansion keeps every free neighbour of a closed cell covered: the neighbours of the node
   * just closed were all offered, and a cell that was open before is closed now or still open.
   */
  lemma CoverKept(grid: seq<seq<int>>, goal: Vector2, before: seq<Node>, closedBefore: set<Vector2>,
                  current: Node, rest: seq<Node>, closed: set<Vector2>, neighbors: seq<Node>, open: seq<Node>)
    requires Covered(grid, before, closedBefore)
    requires multiset(before) == multiset(rest) + multiset{current}
    requires closed == closedBefore + {Key(current)}
    requires neighbors == GetNeighbors(grid, goal, current)
    requires KeysOf(rest) <= KeysOf(open)
    requires forall j :: 0 <= j < |neighbors| ==> Key(neighbors[j]) in closed || Key(neighbors[j]) in KeysOf(open)
    ensures Covered(grid, open, closed)
  {
    forall c, d | c in closed && Adjacent(c, d) && IsFree(grid, d) ensures d in closed || d in KeysOf(open) {
      if c == Key(current) {
        assert d in KeysOf(neighbors);
        var m :| m in neighbors && Key(m) == d;
        var j :| 0 <= j < |neighbors| && neighbors[j] == m;
      } else if d !in closed {
        assert c in closedBefore;
        assert d in KeysOf(before);
        var m :| m in before && Key(m) == d;
        assert m in multiset(before);
        assert m != current;
        assert m in rest;
        assert d in KeysOf(rest);
      }
    }
  }

  /**
   * Closing the popped cell only adds to the closed set, by at most one cell, and closing the same
   * cell again changes nothing.
   */
  lemma CloseCell(closedBefore: set<Vector2>, current: Node, closed: set<Vector2>)
    requires closed == closedBefore + {Key(current)}
    ensures closedBefore <= closed && Key(current) in closed
    ensures closed + {Key(current)} == closed
    ensures |closedBefore| <= |closed| <= |closedBefore| + 1
  {
    if Key(current) in closedBefore {
      assert closed == closedBefore;
    } else {
      assert |closed| == |closedBefore| + 1;
    }
  }

  /** Each iteration shrinks the measure: a fresh cell is closed, or a stale entry leaves the list. */
  lemma MeasureDrops(universe: set<Vector2>, before: seq<Node>, closedBefore: set<Vector2>,
                     current: Node, closed: set<Vector2>, open: seq<Node>)
    requires |before| > 0 && current == SortByF(before)[0]
    requires Key(current) in universe
    requires closed == closedBefore + {Key(current)}
    requires StaleCount(open, closed) == StaleCount(SortByF(before)[1..], closed)
    ensures || Unclosed(universe, closed) < Unclosed(universe, closedBefore)
            || (Unclosed(universe, closed) == Unclosed(universe, closedBefore) && StaleCount(open, closed) < StaleCount(before, closedBefore))
  {
    if Key(current) !in closedBefore {
      assert universe - closedBefore == (universe - closed) + {Key(current)};
    } else {
      assert closed == closedBefore;
      StaleCountSort(before, closedBefore);
    }
  }

  /**
   * The path read off a node that was open: it is a search path ending at that node, its cells are
   * distinct and all closed once the node itself is.
   */
  lemma PathFound(grid: seq<seq<int>>, start: Vector2, goal: Vector2, current: Node, closedBefore: set<Vector2>, closed: set<Vector2>)
    requires Derived(grid, start, goal, current) && Settled(current, closedBefore)
    requires closed == closedBefore + {Key(current)}
    ensures IsSearchPath(grid, start, goal, Reversed(Ancestry(current)))
    ensures |Reversed(Ancestry(current))| == current.g + 1
    ensures Reversed(Ancestry(current))[current.g] == current
    ensures DistinctCells(Reversed(Ancestry(current)))
    ensures forall i :: 0 <= i < |Reversed(Ancestry(current))| ==> Key(Reversed(Ancestry(current))[i]) in closed
  {
    PathOfDerived(grid, start, goal, current);
    ReversedDistinct(Ancestry(current));
    var a := Ancestry(current);
    AncestryClosed(a, closedBefore, closed);
    ReversedKeysIn(a, closed);
  }

  /** The chain of a settled node whose own cell is now closed lies wholly in the closed set. */
  lemma AncestryClosed(a: seq<Node>, closedBefore: set<Vector2>, closed: set<Vector2>)
    requires 0 < |a| && closed == closedBefore + {Key(a[0])}
    requires forall k :: 1 <= k < |a| ==> Key(a[k]) in closedBefore
    ensures forall k :: 0 <= k < |a| ==> Key(a[k]) in closed
  {
  }

  /** Reversal keeps every cell in a set that held the cells of the original. */
  lemma ReversedKeysIn(a: seq<Node>, closed: set<Vector2>)
    requires forall k :: 0 <= k < |a| ==> Key(a[k]) in closed
    ensures forall i :: 0 <= i < |Reversed(a)| ==> Key(Reversed(a)[i]) in closed
  {
    var p := Reversed(a);
    forall i | 0 <= i < |p| ensures Key(p[i]) in closed {
      assert p[i] == a[|a| - 1 - i];
    }
  }

  /** When the open list is exhausted the closed cells hold the start and not the target, so no walk joins them. */
  lemma ExhaustedMeansUnreachable(grid: seq<seq<int>>, closed: set<Vector2>, start: Vector2, target: Vector2)
    requires Covered(grid, [], closed)
    requires start in closed && target !in closed
    ensures forall w :: IsWalk(grid, w) && w[0] == start ==> w[|w| - 1] != target
  {
    assert ClosedUnderSteps(grid, closed);
    forall w | IsWalk(grid, w) && w[0] == start ensures w[|w| - 1] != target {
      WalkStaysInside(grid, closed, w);
    }
  }

  /**
   * The neighbour loop of findPath: offers each neighbour in turn to the list the previous offers
   * left, which is the fold OfferEach.
   */
  method OfferAll(open: seq<Node>, closed: set<Vector2>, neighbors: seq<Node>) returns (r: seq<Node>)
    ensures r == OfferEach(open, closed, neighbors)
  {
    r := open;
    var i := 0;
    while i < |neighbors|
      invariant 0 <= i <= |neighbors|
      invariant OfferEach(r, closed, neighbors[i..]) == OfferEach(open, closed, neighbors)
    {
      assert neighbors[i..][1..] == neighbors[i + 1..];
      r := Offer(r, closed, neighbors[i]);
      i := i + 1;
    }
  }

  /** The nodes met along the parent links from `node`, if there is one. */
  function Lineage(node: Option<Node>): seq<Node> {
    match node
    case None => []
    case Some(n) => Ancestry(n)
  }

  /** One step along the parent links moves the node from the unwalked part to the walked part. */
  lemma LineageStep(walked: seq<Node>, n: Node)
    ensures walked + Lineage(Some(n)) == (walked + [n]) + Lineage(n.parent)
  {
    assert Lineage(Some(n)) == [n] + Lineage(n.parent);
    assert (walked + [n]) + Lineage(n.parent) == walked + ([n] + Lineage(n.parent));
  }

  /** The reversed parent chain runs from a parentless node to `current`. */
  lemma ReversedAncestryEnds(current: Node)
    ensures 0 < |Reversed(Ancestry(current))|
    ensures Reversed(Ancestry(current))[|Reversed(Ancestry(current))| - 1] == current
    ensures Reversed(Ancestry(current))[0].parent.None?
  {
    var a := Ancestry(current);
    assert Reversed(a)[|a| - 1] == a[0];
    assert Reversed(a)[0] == a[|a| - 1];
  }

  /**
   * The path reconstruction of findPath: pushes the nodes met along the parent links, then
   * reverses them, so the result runs from the parentless node to `current`.
   */
  method ReadPath(current: Node) returns (path: seq<Node>)
    ensures path == Reversed(Ancestry(current))
    ensures 0 < |path| && path[|path| - 1] == current && path[0].parent.None?
  {
    var walked: seq<Node> := [];
    var node: Option<Node> := Some(current);
    assert walked + Lineage(node) == Ancestry(current);
    while node.Some?
      invariant walked + Lineage(node) == Ancestry(current)
      decreases |Lineage(node)|
    {
      var n := node.value;
      LineageStep(walked, n);
      walked := walked + [n];
      node := n.parent;
    }
    assert walked == Ancestry(current);
    path := Reversed(walked);
    ReversedAncestryEnds(current);
  }

  /** The state of findPath's loop: the open list, the closed set and the node popped on the target, if any. */
  datatype SearchState = SearchState(open: seq<Node>, closed: set<Vector2>, found: Option<Node>)

  /** The start node of findPath: cost 0, the estimate to `goal`, no parent. */
  function StartNode(start: Vector2, goal: Vector2): Node {
    Node(start.x, start.y, 0, Manhattan(start.x, start.y, goal), Manhattan(start.x, start.y, goal), None)
  }

  /** The state before the loop: the start node alone open, nothing closed. */
  function Initial(start: Vector2, goal: Vector2): SearchState {
    SearchState([StartNode(start, goal)], {}, None)
  }

  /** The loop has stopped: a node was popped on the target, or the open list ran dry. */
  predicate Finished(s: SearchState) {
    s.found.Some? || s.open == []
  }

  /**
   * One iteration of findPath's loop: sort, shift, close the popped cell; stop on the target,
   * otherwise offer the neighbours. A finished state stays as it is.
   */
  function Step(grid: seq<seq<int>>, goal: Vector2, target: Vector2, s: SearchState): SearchState {
    if Finished(s) then s
    else
      var sorted := SortByF(s.open);
      var current := sorted[0];
      var closed := s.closed + {Key(current)};
      if current.x == target.x && current.y == target.y then SearchState(sorted[1..], closed, Some(current))
      else SearchState(OfferEach(sorted[1..], closed, GetNeighbors(grid, goal, current)), closed, None)
  }

  /** The state after `n` iterations from `s`. */
  function Run(grid: seq<seq<int>>, goal: Vector2, target: Vector2, s: SearchState, n: nat): SearchState
    decreases n
  {
    if n == 0 then s else Run(grid, goal, target, Step(grid, goal, target, s), n - 1)
  }

  /** Running one iteration more is one Step applied after the run. */
  lemma {:induction false} RunStep(grid: seq<seq<int>>, goal: Vector2, target: Vector2, s: SearchState, n: nat)
    decreases n
    ensures Run(grid, goal, target, s, n + 1) == Step(grid, goal, target, Run(grid, goal, target, s, n))
  {
    if n > 0 {
      RunStep(grid, goal, target, Step(grid, goal, target, s), n - 1);
    }
  }

  /** Running `n + k` iterations is running `n`, then `k` more. */
  lemma {:induction false} RunAdd(grid: seq<seq<int>>, goal: Vector2, target: Vector2, s: SearchState, n: nat, k: nat)
    decreases n
    ensures Run(grid, goal, target, s, n + k) == Run(grid, goal, target, Run(grid, goal, target, s, n), k)
  {
    if n > 0 {
      RunAdd(grid, goal, target, Step(grid, goal, target, s), n - 1, k);
    }
  }

  /** A finished state is never changed by further iterations. */
  lemma {:induction false} RunFinished(grid: seq<seq<int>>, goal: Vector2, target: Vector2, s: SearchState, k: nat)
    requires Finished(s)
    decreases k
    ensures Run(grid, goal, target, s, k) == s
  {
    if k > 0 {
      RunFinished(grid, goal, target, s, k - 1);
    }
  }

  /**
   * The loop has one final state: any two iteration counts that both reach a finished state
   * reach the same one, so the open list and closed set it ends with are determined.
   */
  lemma FinalStateUnique(grid: seq<seq<int>>, goal: Vector2, target: Vector2, s: SearchState, n: nat, m: nat)
    requires Finished(Run(grid, goal, target, s, n)) && Finished(Run(grid, goal, target, s, m))
    ensures Run(grid, goal, target, s, n) == Run(grid, goal, target, s, m)
  {
    if n <= m {
      RunAdd(grid, goal, target, s, n, m - n);
      RunFinished(grid, goal, target, Run(grid, goal, target, s, n), m - n);
    } else {
      RunAdd(grid, goal, target, s, m, n - m);
      RunFinished(grid, goal, target, Run(grid, goal, target, s, m), n - m);
    }
  }

  /**
   * The invariant of findPath's loop: the frontier facts, the cover of closed cells, closed cells
   * in the universe, the target never closed, and the first iteration popping the start node.
   */
  ghost predicate SearchInv(grid: seq<seq<int>>, start: Vector2, goal: Vector2, target: Vector2, startNode: Node,
                            open: seq<Node>, closed: set<Vector2>) {
    && FrontierOk(grid, start, goal, open, closed)
    && Covered(grid, open, closed)
    && closed <= Universe(grid, start)
    && target !in closed
    && (closed == {} ==> open == [startNode])
    && (closed != {} ==> start in closed)
    && (start == target ==> closed == {})
  }

  /** The first state of the loop: only the start node is open and nothing is closed. */
  lemma SearchInvInit(grid: seq<seq<int>>, start: Vector2, goal: Vector2, target: Vector2, startNode: Node)
    requires startNode == Node(start.x, start.y, 0, Manhattan(start.x, start.y, goal), Manhattan(start.x, start.y, goal), None)
    ensures SearchInv(grid, start, goal, target, startNode, [startNode], {})
  {
    assert Ancestry(startNode) == [startNode];
  }

  /**
   * An iteration that pops a node off the target and expands it keeps the invariant, and the
   * termination measure drops.
   */
  lemma ExpansionKeeps(grid: seq<seq<int>>, start: Vector2, goal: Vector2, target: Vector2, startNode: Node,
                       before: seq<Node>, closedBefore: set<Vector2>, closed: set<Vector2>, neighbors: seq<Node>, open: seq<Node>)
    requires SearchInv(grid, start, goal, target, startNode, before, closedBefore) && |before| > 0
    requires startNode.parent.None? && Key(startNode) == start
    requires closed == closedBefore + {Key(SortByF(before)[0])} && Key(SortByF(before)[0]) != target
    requires neighbors == GetNeighbors(grid, goal, SortByF(before)[0])
    requires open == OfferEach(SortByF(before)[1..], closed, neighbors)
    ensures SearchInv(grid, start, goal, target, startNode, open, closed)
    ensures || Unclosed(Universe(grid, start), closed) < Unclosed(Universe(grid, start), closedBefore)
            || (&& Unclosed(Universe(grid, start), closed) == Unclosed(Universe(grid, start), closedBefore)
                && StaleCount(open, closed) < StaleCount(before, closedBefore))
  {
    var current := SortByF(before)[0];
    var rest := SortByF(before)[1..];
    ShiftTakesMinimum(before);
    OfferEachAppends(rest, closed, neighbors);
    OfferEachCovers(rest, closed, neighbors);
    OfferEachFrom(rest, closed, neighbors);
    assert current in multiset(before);
    FrontierKept(grid, start, goal, before, closedBefore, current, rest, closed, neighbors, open);
    CoverKept(grid, goal, before, closedBefore, current, rest, closed, neighbors, open);
    MeasureDrops(Universe(grid, start), before, closedBefore, current, closed, open);
    if closedBefore == {} {
      assert current == startNode;
    }
  }

  /**
   * An iteration that pops a node on the target: the reversed parent chain of that node is a
   * search path ending at the target, with distinct cells, all closed, and its last node has the
   * least priority left open; a search from the target itself returns the start node alone.
   */
  lemma TargetReached(grid: seq<seq<int>>, start: Vector2, goal: Vector2, target: Vector2, startNode: Node,
                      before: seq<Node>, closedBefore: set<Vector2>, closed: set<Vector2>)
    requires SearchInv(grid, start, goal, target, startNode, before, closedBefore) && |before| > 0
    requires startNode.g == 0 && startNode.parent.None?
    requires closed == closedBefore + {Key(SortByF(before)[0])} && Key(SortByF(before)[0]) == target
    ensures IsSearchPath(grid, start, goal, Reversed(Ancestry(SortByF(before)[0])))
    ensures DistinctCells(Reversed(Ancestry(SortByF(before)[0])))
    ensures forall i :: 0 <= i < |Reversed(Ancestry(SortByF(before)[0]))| ==> Key(Reversed(Ancestry(SortByF(before)[0]))[i]) in closed
    ensures forall n :: n in SortByF(before)[1..] ==> SortByF(before)[0].f <= n.f
    ensures start == target ==> |Reversed(Ancestry(SortByF(before)[0]))| == 1
    ensures closed <= Universe(grid, start)
  {
    var current := SortByF(before)[0];
    ShiftTakesMinimum(before);
    assert current in multiset(before);
    PathFound(grid, start, goal, current, closedBefore, closed);
    if start == target {
      assert current == startNode;
    }
  }

  /**
   * One iteration from a state that satisfies the invariant: off the target it keeps the invariant
   * and decreases the termination measure; on the target the reversed parent chain of the popped
   * node is a search path with distinct closed cells, and that node has the least priority left open.
   */
  lemma StepKeeps(grid: seq<seq<int>>, start: Vector2, goal: Vector2, target: Vector2,
                  before: seq<Node>, closedBefore: set<Vector2>)
    requires SearchInv(grid, start, goal, target, StartNode(start, goal), before, closedBefore) && |before| > 0
    ensures var t := Step(grid, goal, target, SearchState(before, closedBefore, None));
      t.closed <= Universe(grid, start)
    ensures var t := Step(grid, goal, target, SearchState(before, closedBefore, None));
      t.found.None? ==>
        && SearchInv(grid, start, goal, target, StartNode(start, goal), t.open, t.closed)
        && (|| Unclosed(Universe(grid, start), t.closed) < Unclosed(Universe(grid, start), closedBefore)
            || (&& Unclosed(Universe(grid, start), t.closed) == Unclosed(Universe(grid, start), closedBefore)
                && StaleCount(t.open, t.closed) < StaleCount(before, closedBefore)))
    ensures var t := Step(grid, goal, target, SearchState(before, closedBefore, None));
      t.found.Some? ==>
        && Key(t.found.value) == target
        && IsSearchPath(grid, start, goal, Reversed(Ancestry(t.found.value)))
        && DistinctCells(Reversed(Ancestry(t.found.value)))
        && (forall i :: 0 <= i < |Reversed(Ancestry(t.found.value))| ==> Key(Reversed(Ancestry(t.found.value))[i]) in t.closed)
        && (forall n :: n in t.open ==> t.found.value.f <= n.f)
        && (start == target ==> |Reversed(Ancestry(t.found.value))| == 1)
  {
    var startNode := StartNode(start, goal);
    ShiftTakesMinimum(before);
    var current := SortByF(before)[0];
    var closed := closedBefore + {Key(current)};
    CloseCell(closedBefore, current, closed);
    if Key(current) == target {
      TargetReached(grid, start, goal, target, startNode, before, closedBefore, closed);
    } else {
      var neighbors := GetNeighbors(grid, goal, current);
      var open := OfferEach(SortByF(before)[1..], closed, neighbors);
      ExpansionKeeps(grid, start, goal, target, startNode, before, closedBefore, closed, neighbors, open);
    }
  }

  /**
   * One iteration of findPath's loop: sorts the open list by priority, shifts off the front node
   * and closes its cell; a node on the target is handed back, otherwise its neighbours are offered.
   */
  method Iterate(grid: seq<seq<int>>, goal: Vector2, target: Vector2, openList: seq<Node>, closedList: set<Vector2>)
    returns (open: seq<Node>, closed: set<Vector2>, found: Option<Node>)
    requires |openList| > 0
    ensures SearchState(open, closed, found) == Step(grid, goal, target, SearchState(openList, closedList, None))
  {
    open := SortByF(openList);
    var current := open[0];
    open := open[1..];
    closed := closedList + {Key(current)};
    // The visualizeLists hook only draws the two lists.
    if current.x == target.x && current.y == target.y {
      found := Some(current);
      return;
    }
    found := None;
    var neighbors := GetNeighbors(grid, goal, current);
    open := OfferAll(open, closed, neighbors);
  }

  /**
   * The search loop of findPath, on the terrain `grid`, with estimates measured to `goal`.
   * On success the path runs from the start node to a node at `target` along free orthogonal
   * steps, with cost i at position i and no repeated cell; every cell on it is closed, and its last
   * node has the least priority among the entries left open. `openLeft` and `closedSize` are the
   * numbers of the entries left open and of the closed cells. `None` comes back only when the open
   * list runs dry, and then the start is closed, the target is not, and no walk leads from
   * `start` to `target`.
   */
  method Search(grid: seq<seq<int>>, goal: Vector2, start: Vector2, target: Vector2)
    returns (result: Option<seq<Node>>, openLeft: nat, closedSize: nat,
             ghost frontier: seq<Node>, ghost closed: set<Vector2>, ghost steps: nat)
    ensures Finished(Run(grid, goal, target, Initial(start, goal), steps))
    ensures Run(grid, goal, target, Initial(start, goal), steps).open == frontier
    ensures Run(grid, goal, target, Initial(start, goal), steps).closed == closed
    ensures result.None? <==> Run(grid, goal, target, Initial(start, goal), steps).found.None?
    ensures result.Some? ==> result.value == Reversed(Ancestry(Run(grid, goal, target, Initial(start, goal), steps).found.value))
    ensures result.Some? ==> IsSearchPath(grid, start, goal, result.value)
    ensures result.Some? ==> Key(result.value[|result.value| - 1]) == target
    ensures result.Some? ==> DistinctCells(result.value)
    ensures result.Some? ==> forall i :: 0 <= i < |result.value| ==> Key(result.value[i]) in closed
    ensures result.Some? ==> forall n :: n in frontier ==> result.value[|result.value| - 1].f <= n.f
    ensures start == target ==> result.Some? && |result.value| == 1
    ensures openLeft == |frontier| && closedSize == |closed| && closed <= Universe(grid, start)
    ensures result.None? ==> frontier == [] && start in closed && target !in closed
    ensures result.None? ==> forall w :: IsWalk(grid, w) && w[0] == start ==> w[|w| - 1] != target
  {
    ghost var universe := Universe(grid, start);
    var openList: seq<Node> := [];
    var closedList: set<Vector2> := {};
    var h := Manhattan(start.x, start.y, goal);
    var startNode := Node(start.x, start.y, 0, h, h, None);
    openList := openList + [startNode];
    assert startNode == StartNode(start, goal);
    SearchInvInit(grid, start, goal, target, startNode);
    steps := 0;
    while |openList| > 0
      invariant SearchInv(grid, start, goal, target, startNode, openList, closedList)
      invariant Run(grid, goal, target, Initial(start, goal), steps) == SearchState(openList, closedList, None)
      decreases Unclosed(universe, closedList), StaleCount(openList, closedList)
    {
      ghost var before := openList;
      ghost var closedBefore := closedList;
      var found;
      openList, closedList, found := Iterate(grid, goal, target, openList, closedList);
      StepKeeps(grid, start, goal, target, before, closedBefore);
      RunStep(grid, goal, target, Initial(start, goal), steps);
      steps := steps + 1;
      if found.Some? {
        var path := ReadPath(found.value);
        result := Some(path);
        openLeft, closedSize := |openList|, |closedList|;
        frontier, closed := openList, closedList;
        return;
      }
    }
    result, openLeft, closedSize := None, |openList|, |closedList|;
    frontier, closed := openList, closedList;
    ExhaustedMeansUnreachable(grid, closedList, start, target);
  }

  class Pathfinding {
    /** The terrain, indexed `[x][y]`; 0 marks a free cell. */
    var terrainGrid: seq<seq<int>>
    /** The target the heuristic measures to. */
    var target: Vector2
    /** The number of open entries left when the last search succeeded. */
    var openCount: int
    /** The number of closed cells when the last search succeeded. */
    var closedCount: int

    /** The terrain is supplied rather than drawn at random. */
    constructor (terrain: seq<seq<int>>)
      ensures terrainGrid == terrain && target == Vector2(3, 3)
      ensures openCount == 0 && closedCount == 0
    {
      terrainGrid := terrain;
      target := Vector2(3, 3);
      openCount := 0;
      closedCount := 0;
    }

    /**
     * `findPath(start, target)`: the search on this object's terrain, with the estimates measured
     * to the `target` field. A success records the open entries left and the closed cells in the
     * counters; a failure leaves them as they were.
     */
    method FindPath(start: Vector2, target: Vector2) returns (result: Option<seq<Node>>)
      modifies this`openCount, this`closedCount
      ensures result.Some? ==> IsSearchPath(terrainGrid, start, this.target, result.value)
      ensures result.Some? ==> Key(result.value[|result.value| - 1]) == target
      ensures result.Some? ==> DistinctCells(result.value)
      ensures result.Some? ==> exists n ::
        && Run(terrainGrid, this.target, target, Initial(start, this.target), n).found.Some?
        && result.value == Reversed(Ancestry(Run(terrainGrid, this.target, target, Initial(start, this.target), n).found.value))
        && openCount == |Run(terrainGrid, this.target, target, Initial(start, this.target), n).open|
        && closedCount == |Run(terrainGrid, this.target, target, Initial(start, this.target), n).closed|
      ensures result.Some? ==> |result.value| <= closedCount <= |Universe(terrainGrid, start)|
      ensures start == target ==> result.Some? && |result.value| == 1
      ensures result.None? ==> openCount == old(openCount) && closedCount == old(closedCount)
      ensures result.None? ==> exists n ::
        && Run(terrainGrid, this.target, target, Initial(start, this.target), n).open == []
        && Run(terrainGrid, this.target, target, Initial(start, this.target), n).found.None?
      ensures result.None? ==> forall w :: IsWalk(terrainGrid, w) && w[0] == start ==> w[|w| - 1] != target
    {
      ghost var closed, frontier, steps;
      var openLeft, closedSize;
      result, openLeft, closedSize, frontier, closed, steps := Search(terrainGrid, this.target, start, target);
      SubsetCardinality(closed, Universe(terrainGrid, start));
      if result.Some? {
        DistinctCellsCount(result.value);
        assert KeysOf(result.value) <= closed;
        SubsetCardinality(KeysOf(result.value), closed);
        openCount := openLeft;
        closedCount := closedSize;
      }
    }
  }

  lemma SubsetCardinality(a: set<Vector2>, b: set<Vector2>)
    requires a <= b
    ensures |a| <= |b|
  {
    assert b == a + (b - a);
  }
}
