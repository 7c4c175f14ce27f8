/**
 * The open list and closed set of findPath: the library operations it applies to them
 * (`sort` by priority, `find` by cell) and the push decision for a neighbour.
 */
module Frontier {
  import opened Wrappers
  import opened Grid
  import opened Nodes

  /** Ascending in `f`. */
  predicate SortedByF(s: seq<Node>) {
    forall i, j :: 0 <= i < j < |s| ==> s[i].f <= s[j].f
  }

  /** The nodes of `s` whose priority is `v`, in their order in `s`. */
  function WithF(s: seq<Node>, v: int): seq<Node> {
    if s == [] then []
    else (if s[0].f == v then [s[0]] else []) + WithF(s[1..], v)
  }

  /** Places `n` in front of the first node whose priority is not smaller than its own. */
  function InsertByF(n: Node, s: seq<Node>): (r: seq<Node>)
    ensures multiset(r) == multiset(s) + multiset{n}
  {
    if s == [] || n.f <= s[0].f then [n] + s
    else
      assert s == [s[0]] + s[1..];
      [s[0]] + InsertByF(n, s[1..])
  }

  /** Inserting into a sorted list keeps it sorted. */
  lemma {:induction false} InsertByFSorted(n: Node, s: seq<Node>)
    requires SortedByF(s)
    ensures SortedByF(InsertByF(n, s))
  {
    if s != [] && n.f > s[0].f {
      var rest := InsertByF(n, s[1..]);
      InsertByFSorted(n, s[1..]);
      HeadIsLeast(s);
      forall m | m in rest ensures s[0].f <= m.f {
        assert m in multiset(rest);
        if m != n {
          assert m in multiset(s[1..]);
          assert m in s;
        }
      }
      ConsSorted(s[0], rest);
    }
  }

  /** A node no dearer than any node of a sorted list can be put in front of it. */
  lemma ConsSorted(x: Node, rest: seq<Node>)
    requires SortedByF(rest)
    requires forall m :: m in rest ==> x.f <= m.f
    ensures SortedByF([x] + rest)
  {
    var r := [x] + rest;
    forall i, j | 0 <= i < j < |r| ensures r[i].f <= r[j].f {
      assert r[j] == rest[j - 1];
      if i > 0 {
        assert r[i] == rest[i - 1];
      }
    }
  }

  /**
   * `openList.sort((a, b) => a.f - b.f)`. ECMAScript requires `Array.prototype.sort` to be stable,
   * and a stable sort is what this insertion sort computes.
   */
  function SortByF(s: seq<Node>): (r: seq<Node>)
    ensures multiset(r) == multiset(s)
    ensures |r| == |s|
    ensures SortedByF(r)
  {
    if s == [] then []
    else
      assert s == [s[0]] + s[1..];
      InsertByFSorted(s[0], SortByF(s[1..]));
      InsertByF(s[0], SortByF(s[1..]))
  }

  lemma {:induction false} InsertByFStable(n: Node, s: seq<Node>, v: int)
    ensures WithF(InsertByF(n, s), v) == (if n.f == v then [n] else []) + WithF(s, v)
  {
    if s == [] || n.f <= s[0].f {
      assert ([n] + s)[1..] == s;
    } else {
      var rest := InsertByF(n, s[1..]);
      assert ([s[0]] + rest)[1..] == rest;
      InsertByFStable(n, s[1..], v);
    }
  }

  /** The sort is stable: the nodes of any one priority keep their relative order. */
  lemma {:induction false} SortByFStable(s: seq<Node>, v: int)
    ensures WithF(SortByF(s), v) == WithF(s, v)
  {
    if s != [] {
      SortByFStable(s[1..], v);
      InsertByFStable(s[0], SortByF(s[1..]), v);
    }
  }

  /** `sort` followed by `shift`: the node taken has the least priority, and exactly that one entry leaves the list. */
  lemma ShiftTakesMinimum(s: seq<Node>)
    requires |s| > 0
    ensures |SortByF(s)| == |s|
    ensures forall m :: m in s ==> SortByF(s)[0].f <= m.f
    ensures forall m :: m in SortByF(s)[1..] ==> SortByF(s)[0].f <= m.f
    ensures multiset(SortByF(s)[1..]) + multiset{SortByF(s)[0]} == multiset(s)
  {
    var r := SortByF(s);
    assert |multiset(r)| == |multiset(s)|;
    HeadIsLeast(r);
    assert r == [r[0]] + r[1..];
    forall m | m in r[1..] ensures r[0].f <= m.f {
      assert m in r;
    }
    forall m | m in s ensures r[0].f <= m.f {
      assert m in multiset(s);
      assert m in r;
    }
  }

  /** The head of a list sorted by priority has the least priority in it. */
  lemma HeadIsLeast(r: seq<Node>)
    requires |r| > 0 && SortedByF(r)
    ensures forall m :: m in r ==> r[0].f <= m.f
  {
    forall m | m in r ensures r[0].f <= m.f {
      var k :| 0 <= k < |r| && r[k] == m;
      if k > 0 {
        assert r[0].f <= r[k].f;
      }
    }
  }

  /** The first node at cell `c` is at position `j`. */
  ghost predicate FirstAt(open: seq<Node>, c: Vector2, j: int) {
    0 <= j < |open| && Key(open[j]) == c && forall k :: 0 <= k < j ==> Key(open[k]) != c
  }

  /** The position of the first node at cell `c`, or `|open|` when no node is there. */
  function FirstIndex(open: seq<Node>, c: Vector2): (j: nat)
    ensures j <= |open|
    ensures j < |open| ==> Key(open[j]) == c
    ensures forall k :: 0 <= k < j ==> Key(open[k]) != c
  {
    if open == [] then 0
    else if Key(open[0]) == c then 0
    else 1 + FirstIndex(open[1..], c)
  }

  /** `openList.find(n => n.x === c.x && n.y === c.y)`: the first open node at `c`, if any. */
  function FindAt(open: seq<Node>, c: Vector2): (r: Option<Node>)
    ensures r.None? <==> forall k :: 0 <= k < |open| ==> Key(open[k]) != c
    ensures r.Some? ==> exists j :: FirstAt(open, c, j) && open[j] == r.value
  {
    var j := FirstIndex(open, c);
    if j < |open| then
      assert FirstAt(open, c, j);
      Some(open[j])
    else None
  }

  /**
   * The body of the neighbour loop: a neighbour whose cell is closed is skipped; otherwise it is
   * appended when no open node is at its cell or when its cost is strictly below that of the
   * first open node there; in every other case the open list stays as it is.
   */
  function Offer(open: seq<Node>, closed: set<Vector2>, nb: Node): (r: seq<Node>)
    ensures r == open || r == open + [nb]
    ensures r == open + [nb] <==> Key(nb) !in closed && forall j :: FirstAt(open, Key(nb), j) ==> nb.g < open[j].g
  {
    if Key(nb) in closed then open
    else
      var existing := FindAt(open, Key(nb));
      if existing.None? || nb.g < existing.value.g then open + [nb] else open
  }

  /** After an offer the neighbour's cell is closed or open, and no open cell was lost. */
  lemma OfferCoversCell(open: seq<Node>, closed: set<Vector2>, nb: Node)
    ensures KeysOf(open) <= KeysOf(Offer(open, closed, nb))
    ensures Key(nb) in closed || Key(nb) in KeysOf(Offer(open, closed, nb))
  {
    var r := Offer(open, closed, nb);
    if r == open + [nb] {
      assert nb in r;
    } else if Key(nb) !in closed {
      var j :| FirstAt(open, Key(nb), j) && nb.g >= open[j].g;
      assert open[j] in open;
    }
  }

  /**
   * The whole neighbour loop: each neighbour of `nbs` offered in turn, in order, to the list
   * the previous offers left. The list only grows at its end.
   */
  function OfferEach(open: seq<Node>, closed: set<Vector2>, nbs: seq<Node>): (r: seq<Node>)
    decreases |nbs|
    ensures |open| <= |r| <= |open| + |nbs| && r[..|open|] == open
  {
    if nbs == [] then open
    else
      var r := OfferEach(Offer(open, closed, nbs[0]), closed, nbs[1..]);
      assert r[..|open|] == r[..|Offer(open, closed, nbs[0])|][..|open|];
      r
  }

  /**
   * The neighbour loop appends only neighbours whose cell is not closed, so it adds no stale
   * entry.
   */
  lemma {:induction false} OfferEachAppends(open: seq<Node>, closed: set<Vector2>, nbs: seq<Node>)
    decreases |nbs|
    ensures forall k :: |open| <= k < |OfferEach(open, closed, nbs)| ==>
      OfferEach(open, closed, nbs)[k] in nbs && Key(OfferEach(open, closed, nbs)[k]) !in closed
    ensures StaleCount(OfferEach(open, closed, nbs), closed) == StaleCount(open, closed)
  {
    if nbs != [] {
      var o1 := Offer(open, closed, nbs[0]);
      var r := OfferEach(o1, closed, nbs[1..]);
      OfferEachAppends(o1, closed, nbs[1..]);
      if o1 != open {
        StaleCountAppend(open, closed, nbs[0]);
      }
      forall k | |open| <= k < |r| ensures r[k] in nbs && Key(r[k]) !in closed {
        if k < |o1| {
          assert r[k] == r[..|o1|][k] == o1[k] == nbs[0];
        } else {
          assert r[k] in nbs[1..];
        }
      }
    }
  }

  /** Every node the neighbour loop leaves in the list was open before, or is a neighbour on a cell not closed. */
  lemma OfferEachFrom(open: seq<Node>, closed: set<Vector2>, nbs: seq<Node>)
    ensures forall n :: n in OfferEach(open, closed, nbs) ==> n in open || (n in nbs && Key(n) !in closed)
  {
    var r := OfferEach(open, closed, nbs);
    OfferEachAppends(open, closed, nbs);
    forall n | n in r ensures n in open || (n in nbs && Key(n) !in closed) {
      var k :| 0 <= k < |r| && r[k] == n;
      if k < |open| {
        assert n == r[..|open|][k];
      }
    }
  }

  /** After the neighbour loop every neighbour's cell is closed or open, and no open cell was lost. */
  lemma {:induction false} OfferEachCovers(open: seq<Node>, closed: set<Vector2>, nbs: seq<Node>)
    decreases |nbs|
    ensures KeysOf(open) <= KeysOf(OfferEach(open, closed, nbs))
    ensures forall j :: 0 <= j < |nbs| ==> Key(nbs[j]) in closed || Key(nbs[j]) in KeysOf(OfferEach(open, closed, nbs))
  {
    if nbs != [] {
      var o1 := Offer(open, closed, nbs[0]);
      OfferCoversCell(open, closed, nbs[0]);
      OfferEachCovers(o1, closed, nbs[1..]);
      forall j | 0 < j < |nbs| ensures Key(nbs[j]) in closed || Key(nbs[j]) in KeysOf(OfferEach(open, closed, nbs)) {
        assert nbs[j] == nbs[1..][j - 1];
      }
    }
  }

  /** The number of open entries whose cell is already closed. */
  function StaleCount(open: seq<Node>, closed: set<Vector2>): (n: nat)
    ensures n <= |open|
  {
    if open == [] then 0
    else (if Key(open[0]) in closed then 1 else 0) + StaleCount(open[1..], closed)
  }

  lemma {:induction false} StaleCountAppend(open: seq<Node>, closed: set<Vector2>, nb: Node)
    ensures StaleCount(open + [nb], closed) == StaleCount(open, closed) + (if Key(nb) in closed then 1 else 0)
  {
    if open != [] {
      assert (open + [nb])[1..] == open[1..] + [nb];
      StaleCountAppend(open[1..], closed, nb);
    }
  }

  lemma {:induction false} StaleCountInsert(n: Node, s: seq<Node>, closed: set<Vector2>)
    ensures StaleCount(InsertByF(n, s), closed) == StaleCount(s, closed) + (if Key(n) in closed then 1 else 0)
  {
    if s == [] || n.f <= s[0].f {
      assert ([n] + s)[1..] == s;
    } else {
      var rest := InsertByF(n, s[1..]);
      assert ([s[0]] + rest)[1..] == rest;
      StaleCountInsert(n, s[1..], closed);
    }
  }

  /** Sorting does not change how many entries are stale. */
  lemma {:induction false} StaleCountSort(s: seq<Node>, closed: set<Vector2>)
    ensures StaleCount(SortByF(s), closed) == StaleCount(s, closed)
  {
    if s != [] {
      StaleCountSort(s[1..], closed);
      StaleCountInsert(s[0], SortByF(s[1..]), closed);
    }
  }
}
