/**
  The disjoint-set structure the statistics step relies on (a third-party
  library in the original program; the library's code is not modelled here).
  It is modelled by its observable state: the partition of the elements it
  has seen so far. An element is seen when `find` (and so `union`) first
  meets it; until then it is in no set at all, and `itersets` yields exactly
  the classes of this partition.
 */
module DisjointSets {

  type Partition = set<set<nat>>

  /** Pairs of element ids; an edge of a graph over the elements. */
  type Edge = (nat, nat)

  /** Classes are non-empty and pairwise disjoint. */
  ghost predicate Partitioned(P: Partition) {
    && (forall C :: C in P ==> C != {})
    && (forall C, D :: C in P && D in P && C != D ==> C !! D)
  }

  /** Every element that lies in some class. */
  ghost function Elements(P: Partition): (vs: set<nat>) {
    set C, v | C in P && v in C :: v
  }

  /** The class that holds x. */
  ghost function ClassOf(P: Partition, x: nat): (C: set<nat>)
    requires x in Elements(P)
    ensures C in P && x in C
  {
    var C :| C in P && x in C; C
  }

  /** A partition has no class exactly when it holds no element: no set is counted until something is seen. */
  lemma NoClassIffNoElement(P: Partition)
    requires Partitioned(P)
    ensures P == {} <==> Elements(P) == {}
  {
    if P != {} {
      var C :| C in P;
      var v :| v in C;
      assert v in Elements(P);
    }
  }

  /** The state after `find(x)`: x becomes a singleton class if it was not seen yet. */
  ghost function WithElement(P: Partition, x: nat): (Q: Partition) {
    if x in Elements(P) then P else P + {{x}}
  }

  /** Replacing two distinct classes by their union. */
  ghost function Join(Q: Partition, cx: set<nat>, cy: set<nat>): (R: Partition) {
    Q - {cx, cy} + {cx + cy}
  }

  /** The state after `union(x, y)`: both are seen, and their classes are merged. */
  ghost function Merge(P: Partition, x: nat, y: nat): (R: Partition) {
    var Q := WithElement(WithElement(P, x), y);
    assert x in Elements(WithElement(P, x)) by {
      assert x in Elements(P) || {x} in WithElement(P, x);
    }
    assert y in Elements(Q) by {
      assert y in Elements(WithElement(P, x)) || {y} in Q;
    }
    assert x in Elements(Q) by {
      var C := ClassOf(WithElement(P, x), x);
      assert C in Q;
    }
    var cx, cy := ClassOf(Q, x), ClassOf(Q, y);
    if cx == cy then Q else Join(Q, cx, cy)
  }

  lemma ClassOfUnique(P: Partition, x: nat, C: set<nat>)
    requires Partitioned(P) && C in P && x in C
    ensures x in Elements(P) && ClassOf(P, x) == C
  {
  }

  lemma ElementsOfWithElement(P: Partition, x: nat)
    requires Partitioned(P)
    ensures Partitioned(WithElement(P, x))
    ensures Elements(WithElement(P, x)) == Elements(P) + {x}
    ensures x !in Elements(P) ==> |WithElement(P, x)| == |P| + 1
    ensures x in Elements(P) ==> WithElement(P, x) == P
  {
    if x !in Elements(P) {
      var Q := P + {{x}};
      forall v | v in Elements(Q) ensures v in Elements(P) + {x} {
        var C :| C in Q && v in C;
      }
      forall v | v in Elements(P) + {x} ensures v in Elements(Q) {
        if v != x {
          var C :| C in P && v in C;
          assert C in Q;
        } else {
          assert {x} in Q;
        }
      }
    }
  }

  lemma JoinPartitioned(Q: Partition, cx: set<nat>, cy: set<nat>)
    requires Partitioned(Q) && cx in Q && cy in Q && cx != cy
    ensures Partitioned(Join(Q, cx, cy))
    ensures |Join(Q, cx, cy)| == |Q| - 1
  {
    var R := Join(Q, cx, cy);
    assert cx + cy !in Q - {cx, cy} by {
      forall D | D in Q - {cx, cy} ensures D != cx + cy {
        assert D !! cx;
      }
    }
    forall C, D | C in R && D in R && C != D ensures C !! D {
      if C != cx + cy && D != cx + cy {
      } else if C == cx + cy {
        assert D in Q && D != cx && D != cy;
      } else {
        assert C in Q && C != cx && C != cy;
      }
    }
  }

  lemma JoinElements(Q: Partition, cx: set<nat>, cy: set<nat>)
    requires cx in Q && cy in Q
    ensures Elements(Join(Q, cx, cy)) == Elements(Q)
  {
    var R := Join(Q, cx, cy);
    forall v | v in Elements(R) ensures v in Elements(Q) {
      var C :| C in R && v in C;
      if C == cx + cy {
        if v in cx { assert cx in Q; } else { assert cy in Q; }
      } else {
        assert C in Q;
      }
    }
    forall v | v in Elements(Q) ensures v in Elements(R) {
      var C :| C in Q && v in C;
      if C == cx || C == cy {
        assert cx + cy in R;
      } else {
        assert C in R;
      }
    }
  }

  /** Merge seen as its two steps: see x and y, then join their classes if they differ. */
  lemma MergeSteps(P: Partition, x: nat, y: nat)
    requires Partitioned(P)
    ensures var Q := WithElement(WithElement(P, x), y);
      && Partitioned(Q)
      && Elements(Q) == Elements(P) + {x, y}
      && x in Elements(Q) && y in Elements(Q)
      && var cx, cy := ClassOf(Q, x), ClassOf(Q, y);
         Merge(P, x, y) == (if cx == cy then Q else Join(Q, cx, cy))
  {
    ElementsOfWithElement(P, x);
    ElementsOfWithElement(WithElement(P, x), y);
  }

  /**
    Union keeps a partition, puts x and y in one class, adds exactly x and y
    to the elements seen, and grows the number of classes by at most one.
   */
  lemma {:induction false} MergeFacts(P: Partition, x: nat, y: nat)
    requires Partitioned(P)
    ensures var R := Merge(P, x, y);
      && Partitioned(R)
      && Elements(R) == Elements(P) + {x, y}
      && (exists C :: C in R && x in C && y in C)
      && |R| <= |P| + 1
      && R != {}
  {
    var Q1 := WithElement(P, x);
    ElementsOfWithElement(P, x);
    var Q := WithElement(Q1, y);
    ElementsOfWithElement(Q1, y);
    MergeSteps(P, x, y);
    var cx, cy := ClassOf(Q, x), ClassOf(Q, y);
    var R := Merge(P, x, y);
    if cx == cy {
      assert cx in R;
      if x !in Elements(P) && y !in Elements(P) && x != y {
        assert false;
      }
    } else {
      JoinPartitioned(Q, cx, cy);
      JoinElements(Q, cx, cy);
      assert cx + cy in R;
    }
  }

  // The graph side: which partition a set of edges determines.

  /** Every vertex that is an end of some edge. */
  ghost function Endpoints(E: set<Edge>): (vs: set<nat>) {
    (set e | e in E :: e.0) + (set e | e in E :: e.1)
  }

  /** S is a non-empty proper part of C. */
  ghost predicate Splits(S: set<nat>, C: set<nat>) {
    S <= C && S != {} && S != C
  }

  /** Some edge joins S to the rest of C. */
  ghost predicate Crossed(E: set<Edge>, S: set<nat>, C: set<nat>) {
    exists e :: e in E && ((e.0 in S && e.1 in C - S) || (e.1 in S && e.0 in C - S))
  }

  /** C cannot be cut in two without cutting an edge: C is connected by E. */
  ghost predicate Connected(C: set<nat>, E: set<Edge>) {
    forall S :: Splits(S, C) ==> Crossed(E, S, C)
  }

  /** No edge leaves a class. */
  ghost predicate Closed(P: Partition, E: set<Edge>) {
    forall C, e :: C in P && e in E ==> (e.0 in C <==> e.1 in C)
  }

  /**
    P is the set of connected components of the graph whose edges are E and
    whose vertices are the ends of those edges (isolated vertices are not in it).
   */
  ghost predicate IsComponents(P: Partition, E: set<Edge>) {
    && Partitioned(P)
    && Elements(P) == Endpoints(E)
    && Closed(P, E)
    && (forall C :: C in P ==> Connected(C, E))
  }

  /** The component partition of a graph is unique, so its size is well defined. */
  lemma ComponentsUnique(P: Partition, P': Partition, E: set<Edge>)
    requires IsComponents(P, E) && IsComponents(P', E)
    ensures P == P'
  {
    forall C | C in P ensures C in P' {
      ComponentIn(P, P', E, C);
    }
    forall C | C in P' ensures C in P {
      ComponentIn(P', P, E, C);
    }
  }

  lemma ComponentIn(P: Partition, P': Partition, E: set<Edge>, C: set<nat>)
    requires IsComponents(P, E) && IsComponents(P', E) && C in P
    ensures C in P'
  {
    var v :| v in C;
    assert v in Elements(P);
    assert v in Elements(P');
    var D := ClassOf(P', v);
    assert v in C * D;
    ClassInside(P, P', E, C, D);
    assert v in D * C;
    ClassInside(P', P, E, D, C);
    assert C == D;
  }

  /** A class of one component partition that meets a class of another lies inside it. */
  lemma ClassInside(P: Partition, P': Partition, E: set<Edge>, C: set<nat>, D: set<nat>)
    requires IsComponents(P, E) && IsComponents(P', E) && C in P && D in P' && C * D != {}
    ensures C <= D
  {
    var S := C * D;
    if S != C {
      assert Splits(S, C);
      assert false;
    }
  }

  lemma ConnectedMono(C: set<nat>, E: set<Edge>, E': set<Edge>)
    requires Connected(C, E) && E <= E'
    ensures Connected(C, E')
  {
    forall S | Splits(S, C) ensures Crossed(E', S, C) {
      var e :| e in E && ((e.0 in S && e.1 in C - S) || (e.1 in S && e.0 in C - S));
      assert e in E';
    }
  }

  lemma SingletonConnected(x: nat, E: set<Edge>)
    ensures Connected({x}, E)
  {
    forall S | S <= {x} && S != {} ensures S == {x} {
      var v :| v in S;
    }
  }

  /** Two connected classes joined by an edge form a connected class. */
  lemma ConnectedJoin(cx: set<nat>, cy: set<nat>, E: set<Edge>, x: nat, y: nat)
    requires cx !! cy && x in cx && y in cy && (x, y) in E
    requires Connected(cx, E) && Connected(cy, E)
    ensures Connected(cx + cy, E)
  {
    var C := cx + cy;
    forall S | Splits(S, C) ensures Crossed(E, S, C) {
      var Sx, Sy := S * cx, S * cy;
      if Splits(Sx, cx) {
        var e :| e in E && ((e.0 in Sx && e.1 in cx - Sx) || (e.1 in Sx && e.0 in cx - Sx));
        assert (e.0 in S && e.1 in C - S) || (e.1 in S && e.0 in C - S);
      } else if Splits(Sy, cy) {
        var e :| e in E && ((e.0 in Sy && e.1 in cy - Sy) || (e.1 in Sy && e.0 in cy - Sy));
        assert (e.0 in S && e.1 in C - S) || (e.1 in S && e.0 in C - S);
      } else {
        assert S == Sx + Sy;
        if Sx == cx && Sy != cy {
          assert Sy == {};
          assert x in S && y in C - S;
        } else if Sx != cx && Sy == cy {
          assert Sx == {};
          assert y in S && x in C - S;
        } else {
          assert false;
        }
      }
    }
  }

  /** The ends of the edges after one more edge is added. */
  lemma EndpointsAdd(E: set<Edge>, x: nat, y: nat)
    ensures Endpoints(E + {(x, y)}) == Endpoints(E) + {x, y}
  {
    var E' := E + {(x, y)};
    assert (x, y) in E';
    forall v | v in Endpoints(E') ensures v in Endpoints(E) + {x, y} {
      var e :| e in E' && (e.0 == v || e.1 == v);
    }
    forall v | v in Endpoints(E) ensures v in Endpoints(E') {
      var e :| e in E && (e.0 == v || e.1 == v);
      assert e in E';
    }
  }

  /** The facts seeing a new element keeps, for a graph whose ends are already seen. */
  lemma {:induction false} WithElementKeepsClosed(P: Partition, E: set<Edge>, x: nat)
    requires Partitioned(P) && Endpoints(E) <= Elements(P) && Closed(P, E)
    requires forall C :: C in P ==> Connected(C, E)
    ensures var Q := WithElement(P, x);
      && Partitioned(Q) && Endpoints(E) <= Elements(Q) && Closed(Q, E)
      && (forall C :: C in Q ==> Connected(C, E))
  {
    ElementsOfWithElement(P, x);
    var Q := WithElement(P, x);
    if x !in Elements(P) {
      SingletonConnected(x, E);
      forall C, e | C in Q && e in E ensures e.0 in C <==> e.1 in C {
        if C == {x} {
          assert e.0 in Endpoints(E) && e.1 in Endpoints(E);
        }
      }
    }
  }

  /** Adding an edge inside one class keeps the partition closed. */
  lemma EdgeInsideKeepsClosed(Q: Partition, E: set<Edge>, C0: set<nat>, x: nat, y: nat)
    requires Partitioned(Q) && Closed(Q, E) && C0 in Q && x in C0 && y in C0
    ensures Closed(Q, E + {(x, y)})
  {
    forall C, e | C in Q && e in E + {(x, y)} ensures e.0 in C <==> e.1 in C {
      if e == (x, y) && C != C0 {
        assert C !! C0;
      }
    }
  }

  /** Joining the classes of the two ends of a new edge keeps closedness and connectedness. */
  lemma JoinKeepsComponents(Q: Partition, E: set<Edge>, cx: set<nat>, cy: set<nat>, x: nat, y: nat)
    requires Partitioned(Q) && Closed(Q, E)
    requires cx in Q && cy in Q && cx != cy && x in cx && y in cy
    requires forall C :: C in Q ==> Connected(C, E + {(x, y)})
    ensures Closed(Join(Q, cx, cy), E + {(x, y)})
    ensures forall C :: C in Join(Q, cx, cy) ==> Connected(C, E + {(x, y)})
  {
    var E' := E + {(x, y)};
    var R := Join(Q, cx, cy);
    ConnectedJoin(cx, cy, E', x, y);
    forall C, e | C in R && e in E' ensures e.0 in C <==> e.1 in C {
      if C != cx + cy {
        assert C in Q && C !! cx && C !! cy;
      }
    }
  }

  /**
    The heart of the clustering: if the classes seen so far are the connected
    components of the edges met so far, then after `union(x, y)` they are the
    components of those edges plus (x, y).
   */
  lemma {:induction false} MergeKeepsComponents(P: Partition, E: set<Edge>, x: nat, y: nat)
    requires IsComponents(P, E)
    ensures IsComponents(Merge(P, x, y), E + {(x, y)})
  {
    var E' := E + {(x, y)};
    var Q1 := WithElement(P, x);
    WithElementKeepsClosed(P, E, x);
    var Q := WithElement(Q1, y);
    WithElementKeepsClosed(Q1, E, y);
    MergeSteps(P, x, y);
    MergeFacts(P, x, y);
    EndpointsAdd(E, x, y);
    var cx, cy := ClassOf(Q, x), ClassOf(Q, y);
    forall C | C in Q ensures Connected(C, E') {
      ConnectedMono(C, E, E');
    }
    if cx == cy {
      EdgeInsideKeepsClosed(Q, E, cx, x, y);
    } else {
      JoinKeepsComponents(Q, E, cx, cy, x, y);
    }
  }

  /** The mutable structure: the partition of the elements seen so far. */
  class DisjointSet {
    var classes: Partition

    ghost predicate Valid()
      reads this
    {
      Partitioned(classes)
    }

    /** A new structure has seen nothing. */
    constructor ()
      ensures Valid() && classes == {}
    {
      classes := {};
    }

    /** The class of x, after making x a singleton class if it was not seen yet. */
    method Find(x: nat) returns (c: set<nat>)
      requires Valid()
      modifies this
      ensures Valid() && classes == WithElement(old(classes), x)
      ensures c in classes && x in c
    {
      ElementsOfWithElement(classes, x);
      if exists C :: C in classes && x in C {
        c :| c in classes && x in c;
      } else {
        c := {x};
        classes := classes + {c};
      }
    }

    /** Merges the classes of x and y, seeing each first if needed. */
    method Union(x: nat, y: nat)
      requires Valid()
      modifies this
      ensures Valid() && classes == Merge(old(classes), x, y)
    {
      ghost var P := classes;
      var cx := Find(x);
      ghost var Q1 := classes;
      var cy := Find(y);
      ElementsOfWithElement(Q1, y);
      assert cx in classes;
      ClassOfUnique(classes, x, cx);
      ClassOfUnique(classes, y, cy);
      MergeFacts(P, x, y);
      if cx != cy {
        classes := classes - {cx, cy} + {cx + cy};
      }
    }

    /** How many sets `itersets` yields. */
    function SetCount(): (n: nat)
      reads this
      ensures n == 0 <==> classes == {}
    {
      |classes|
    }
  }
}
