/**
  The per-frame violation statistics: how many people, how many flagged
  safe and unsafe, how many violating pairs and how many clusters of
  mutually connected violators.
 */
module Statistics {
  import opened Proximity
  import opened DisjointSets

  /** The record the source returns as a dictionary with keys Total, Safe, Unsafe, Violations, Violation Clusters. */
  datatype Stats = Stats(total: nat, safe: nat, unsafe: int, violations: nat, clusters: nat)

  /** The number of safe flags (Python's `sum` over booleans). */
  function CountSafe(isSafe: seq<bool>): (n: nat)
    ensures n == multiset(isSafe)[true]
    ensures n <= |isSafe|
  {
    if isSafe == [] then 0
    else
      assert isSafe == [isSafe[0]] + isSafe[1..];
      (if isSafe[0] then 1 else 0) + CountSafe(isSafe[1..])
  }

  /** Every unordered pair of indices below n, written with the smaller index first. */
  ghost function PairsBelow(n: nat): (ps: set<Edge>) {
    set i: nat, j: nat | i < j < n :: (i, j)
  }

  /** The violating pairs: unordered pairs of distinct points closer than d. */
  ghost function ClosePairs(points: seq<Point>, d: real): (ps: set<Edge>) {
    set i: nat, j: nat | i < j < |points| && Close(points[i], points[j], d) :: (i, j)
  }

  /**
    The pairs the source's double loop has recorded as visited when the outer
    index is i and the inner index is j: whole rows before i, and row i up to j.
   */
  ghost function Visited(n: nat, i: nat, j: nat): (ps: set<Edge>) {
    set a: nat, b: nat | a <= i && a < b < n && (a < i || b < j) :: (a, b)
  }

  /**
    What the double loop maintains about the pairs visited so far: the
    violating pairs among them are the edges met, the counter counts them,
    and the disjoint-set classes are the connected components of those edges.
   */
  ghost predicate ScanState(points: seq<Point>, d: real, visited: set<Edge>, edges: set<Edge>,
                            violations: nat, classes: Partition)
  {
    && edges == ClosePairs(points, d) * visited
    && violations == |edges|
    && IsComponents(classes, edges)
    && |classes| <= violations
    && (classes == {} <==> violations == 0)
  }

  /**
    The statistics step as the source runs it: a double loop that records
    visited ordered pairs so that each unordered pair is examined once,
    counts the violating ones and unions their ends in a disjoint-set
    structure, whose number of sets is the number of clusters.
   */
  method CalcStatistics(groundPoints: seq<Point>, safeDistance: real, isSafe: seq<bool>)
    returns (stats: Stats)
    ensures stats.total == |groundPoints|
    ensures stats.safe == multiset(isSafe)[true]
    ensures stats.safe + stats.unsafe == stats.total
    ensures |isSafe| == |groundPoints| ==> stats.unsafe == multiset(isSafe)[false]
    ensures stats.violations == |ClosePairs(groundPoints, safeDistance)|
    ensures exists P :: IsComponents(P, ClosePairs(groundPoints, safeDistance)) && stats.clusters == |P|
    ensures stats.clusters <= stats.violations
    ensures stats.clusters == 0 <==> stats.violations == 0
  {
    var n := |groundPoints|;
    var violations := 0;
    var ds := new DisjointSet();
    var visited: set<Edge> := {};
    ghost var edges: set<Edge> := {};
    assert Elements({}) == {} == Endpoints({});
    for i := 0 to n
      invariant visited == Visited(n, i, 0)
      invariant ScanState(groundPoints, safeDistance, visited, edges, violations, ds.classes)
    {
      visited, violations, edges := ScanRow(groundPoints, safeDistance, i, ds, visited, violations, edges);
    }
    ScanComplete(groundPoints, safeDistance, visited, edges, violations, ds.classes);
    var safeCount := CountSafe(isSafe);
    stats := Stats(n, safeCount, n - safeCount, violations, ds.SetCount());
    if |isSafe| == n {
      assert multiset(isSafe)[true] + multiset(isSafe)[false] == |isSafe| by {
        BoolCounts(isSafe);
      }
    }
  }

  /** Once every pair is visited, the scan state speaks of all violating pairs. */
  lemma ScanComplete(points: seq<Point>, d: real, visited: set<Edge>, edges: set<Edge>,
                     violations: nat, classes: Partition)
    requires visited == Visited(|points|, |points|, 0)
    requires ScanState(points, d, visited, edges, violations, classes)
    ensures violations == |ClosePairs(points, d)|
    ensures IsComponents(classes, ClosePairs(points, d))
    ensures |classes| <= violations && (|classes| == 0 <==> violations == 0)
  {
    VisitedAll(points, d);
  }

  /** Examining the new pair (i, j) keeps the scan state, whether or not it violates. */
  lemma ScanStateStep(points: seq<Point>, d: real, i: nat, j: nat, visited: set<Edge>,
                      edges: set<Edge>, violations: nat, classes: Partition)
    requires i < j < |points| && (i, j) !in visited
    requires ScanState(points, d, visited, edges, violations, classes)
    ensures Partitioned(classes)
    ensures Close(points[i], points[j], d) ==>
      ScanState(points, d, visited + {(i, j)}, edges + {(i, j)}, violations + 1, Merge(classes, i, j))
    ensures !Close(points[i], points[j], d) ==>
      ScanState(points, d, visited + {(i, j)}, edges, violations, classes)
  {
    IntersectWithOneMore(ClosePairs(points, d), visited, (i, j));
    ClosePairsHas(points, d, i, j);
    if Close(points[i], points[j], d) {
      MergeKeepsComponents(classes, edges, i, j);
      MergeFacts(classes, i, j);
    }
  }

  /**
    The inner loop of the statistics step for outer index i: every j is
    tried, the pairs already seen the other way round are skipped, and each
    new violating pair is counted and its ends united.
   */
  method ScanRow(points: seq<Point>, d: real, i: nat, ds: DisjointSet,
                 visited0: set<Edge>, violations0: nat, ghost edges0: set<Edge>)
    returns (visited: set<Edge>, violations: nat, ghost edges: set<Edge>)
    requires i < |points| && visited0 == Visited(|points|, i, 0)
    requires ScanState(points, d, visited0, edges0, violations0, ds.classes)
    modifies ds
    ensures visited == Visited(|points|, i + 1, 0)
    ensures ScanState(points, d, visited, edges, violations, ds.classes)
  {
    var n := |points|;
    visited, violations, edges := visited0, violations0, edges0;
    for j := 0 to n
      invariant visited == Visited(n, i, j)
      invariant ScanState(points, d, visited, edges, violations, ds.classes)
    {
      VisitedStep(n, i, j);
      if i == j || (j, i) in visited {
        continue;
      }
      ScanStateStep(points, d, i, j, visited, edges, violations, ds.classes);
      visited := visited + {(i, j)};
      if Close(points[i], points[j], d) {
        ds.Union(i, j);
        edges := edges + {(i, j)};
        violations := violations + 1;
      }
    }
    VisitedRowDone(n, i);
  }

  lemma {:induction false} BoolCounts(s: seq<bool>)
    ensures multiset(s)[true] + multiset(s)[false] == |s|
  {
    if s != [] {
      assert s == [s[0]] + s[1..];
      assert multiset(s) == multiset([s[0]]) + multiset(s[1..]);
      BoolCounts(s[1..]);
      if s[0] {
        assert multiset([s[0]])[true] == 1 && multiset([s[0]])[false] == 0;
      } else {
        assert multiset([s[0]])[true] == 0 && multiset([s[0]])[false] == 1;
      }
    }
  }

  /**
    What the skip test `i == j or (j, i) in visited` sees: exactly the pairs
    with j <= i are skipped, and recording (i, j) for j > i extends the
    visited set by that one new pair.
   */
  lemma VisitedStep(n: nat, i: nat, j: nat)
    requires i < n && j < n
    ensures (i == j || (j, i) in Visited(n, i, j)) <==> j <= i
    ensures j <= i ==> Visited(n, i, j + 1) == Visited(n, i, j)
    ensures i < j ==> (i, j) !in Visited(n, i, j) && Visited(n, i, j + 1) == Visited(n, i, j) + {(i, j)}
  {
    if j < i {
      assert (j, i) in Visited(n, i, j);
    }
    if i < j {
      assert (i, j) in Visited(n, i, j + 1);
    }
  }

  lemma IntersectWithOneMore(A: set<Edge>, V: set<Edge>, p: Edge)
    ensures A * (V + {p}) == if p in A then A * V + {p} else A * V
  {
  }

  lemma VisitedRowDone(n: nat, i: nat)
    ensures Visited(n, i, n) == Visited(n, i + 1, 0)
  {
  }

  lemma ClosePairsHas(points: seq<Point>, d: real, i: nat, j: nat)
    requires i < j < |points|
    ensures (i, j) in ClosePairs(points, d) <==> Close(points[i], points[j], d)
  {
    if Close(points[i], points[j], d) {
      assert (i, j) in ClosePairs(points, d);
    }
  }

  /** When the loops end every pair has been visited, so every violating pair has been met. */
  lemma VisitedAll(points: seq<Point>, d: real)
    ensures ClosePairs(points, d) * Visited(|points|, |points|, 0) == ClosePairs(points, d)
  {
  }

  /** The pairs (i, m) for i < k: the pairs that close with m as larger index. */
  ghost function Column(m: nat, k: nat): (ps: set<Edge>) {
    set i: nat | i < k :: (i, m)
  }

  lemma {:induction false} ColumnSize(m: nat, k: nat)
    ensures |Column(m, k)| == k
  {
    if k > 0 {
      ColumnSize(m, k - 1);
      assert Column(m, k) == Column(m, k - 1) + {(k - 1, m)};
    }
  }

  lemma TriangleStep(n: nat)
    requires n > 0
    ensures n * (n - 1) == (n - 1) * (n - 2) + 2 * (n - 1)
  {
  }

  /** There are n(n-1)/2 unordered pairs of distinct indices below n. */
  lemma {:induction false} PairsBelowSize(n: nat)
    ensures 2 * |PairsBelow(n)| == n * (n - 1)
  {
    if n > 0 {
      PairsBelowSize(n - 1);
      assert PairsBelow(n) == PairsBelow(n - 1) + Column(n - 1, n - 1);
      assert PairsBelow(n - 1) !! Column(n - 1, n - 1);
      ColumnSize(n - 1, n - 1);
      TriangleStep(n);
    }
  }

  /**
    Each unordered pair is counted at most once, so there are at most
    n(n-1)/2 violations; with a safe distance that is not positive there are none.
   */
  lemma ViolationsBound(points: seq<Point>, d: real)
    ensures |ClosePairs(points, d)| <= |points| * (|points| - 1) / 2
    ensures d <= 0.0 ==> ClosePairs(points, d) == {}
  {
    var n := |points|;
    assert ClosePairs(points, d) <= PairsBelow(n);
    PairsBelowSize(n);
    var all := n * (n - 1);
    assert 2 * |PairsBelow(n)| == all;
    assert |PairsBelow(n)| == all / 2;
    var rest := PairsBelow(n) - ClosePairs(points, d);
    assert PairsBelow(n) == ClosePairs(points, d) + rest;
    assert |PairsBelow(n)| == |ClosePairs(points, d)| + |rest|;
  }

  /**
    The two scans agree on the absence of violations: every point is flagged
    safe exactly when no pair of points is closer than the distance.
   */
  lemma AllSafeIffNoViolations(points: seq<Point>, d: real)
    ensures (forall m :: 0 <= m < |points| ==> Classification(points, d)[m]) <==> ClosePairs(points, d) == {}
  {
    if ClosePairs(points, d) == {} {
      forall m | 0 <= m < |points| ensures Classification(points, d)[m] {
        forall q | 0 <= q < |points| && q != m ensures !Close(points[m], points[q], d) {
          CloseSymmetric(points[m], points[q], d);
          var pair := if m < q then (m, q) else (q, m);
          assert Close(points[m], points[q], d) ==> pair in ClosePairs(points, d);
        }
        UnsafeHasCloseNeighbour(points, d, m);
      }
    } else {
      var e :| e in ClosePairs(points, d);
      var i, j := e.0, e.1;
      assert i < j < |points| && Close(points[i], points[j], d);
      CloseSymmetric(points[i], points[j], d);
      EarlierCloseMarksUnsafe(points, d, j, i);
    }
  }

  /**
    Three people, two of them one unit apart and the third far away, with a
    safe distance of two: one violation, two unsafe flags, and ONE cluster,
    because the far person never enters the disjoint-set structure.
   */
  lemma ThreePeopleExample()
    ensures var points := [Point(0.0, 0.0), Point(1.0, 0.0), Point(10.0, 10.0)];
      && ClosePairs(points, 2.0) == {(0, 1)}
      && Classification(points, 2.0) == [false, false, true]
      && (forall P :: IsComponents(P, ClosePairs(points, 2.0)) ==> |P| == 1)
  {
    var points := [Point(0.0, 0.0), Point(1.0, 0.0), Point(10.0, 10.0)];
    assert Close(points[0], points[1], 2.0);
    assert !Close(points[0], points[2], 2.0) && !Close(points[1], points[2], 2.0);
    var E := ClosePairs(points, 2.0);
    forall e | e in E ensures e == (0, 1) {
      assert e.0 < e.1 < 3;
    }
    assert (0, 1) in E;
    assert FirstCloseBefore(points, 1, 2.0) == Some(0);
    assert FirstCloseBefore(points, 2, 2.0) == None;
    assert Classified(points, 2.0, 1) == [true, true, true];
    assert Classified(points, 2.0, 2) == [false, false, true];
    var C := {0, 1};
    assert Endpoints({(0, 1)}) == C;
    forall S | Splits(S, C) ensures Crossed({(0, 1)}, S, C) {
      assert (0 in S && 1 in C - S) || (1 in S && 0 in C - S);
    }
    assert Elements({C}) == C;
    assert IsComponents({C}, E);
    forall P | IsComponents(P, E) ensures |P| == 1 {
      ComponentsUnique(P, {C}, E);
    }
  }
}
