/** Natural loops by their paths, and how two of them can meet. */
module LoopSpec {
  import opened FlowGraph
  import opened DominatorSpec

  /** The loop-bound attribute of a loop. */
  datatype Bound = Unbounded | Bounded(value: int)

  /** The predecessors of `h` whose set contains `h`: the sources of its back edges. */
  ghost function BackSources(g: Graph, d: DomMap, h: Node): set<Node> {
    set s | s in g.Predecessors(h) && s in d && h in d[s]
  }

  /** `h` with all nodes that reach a back-edge source without passing `h`. */
  ghost function NaturalLoop(g: Graph, h: Node, sources: set<Node>): set<Node> {
    set x | x in g.nodes && (x == h || exists s | s in sources :: ReachesAvoiding(g, x, s, {h}))
  }

  ghost function LoopOf(g: Graph, d: DomMap, h: Node): set<Node> {
    NaturalLoop(g, h, BackSources(g, d, h))
  }

  // ---- Paths that avoid nodes

  lemma ReachesTransitive(g: Graph, x: Node, y: Node, z: Node, avoid: set<Node>)
    requires ReachesAvoiding(g, x, y, avoid) && ReachesAvoiding(g, y, z, avoid)
    ensures ReachesAvoiding(g, x, z, avoid)
  {
    var p :| PathBetween(g, p, x, y) && forall v | v in p :: v !in avoid;
    var q :| PathBetween(g, q, y, z) && forall v | v in q :: v !in avoid;
    JoinPaths(g, p, q, x, y, z);
  }

  lemma ReachesStep(g: Graph, x: Node, y: Node, z: Node, avoid: set<Node>)
    requires ReachesAvoiding(g, x, y, avoid) && Edge(g, y, z) && z !in avoid
    ensures ReachesAvoiding(g, x, z, avoid)
  {
    var p :| PathBetween(g, p, x, y) && forall v | v in p :: v !in avoid;
    ExtendPath(g, p, x, y, z);
    assert forall v | v in p + [z] :: v in p || v == z;
  }

  lemma SegmentReaches(g: Graph, p: seq<Node>, i: nat, j: nat, avoid: set<Node>)
    requires g.Valid() && Path(g, p) && i <= j < |p|
    requires forall k | i <= k <= j :: p[k] !in avoid
    ensures ReachesAvoiding(g, p[i], p[j], avoid)
  {
    SubPath(g, p, i, j);
    assert forall v | v in p[i..j + 1] :: v !in avoid;
  }

  lemma {:induction false} LastOccurrence(p: seq<Node>, x: Node) returns (i: nat)
    requires x in p
    ensures i < |p| && p[i] == x && forall k | i < k < |p| :: p[k] != x
  {
    if p[|p| - 1] == x {
      i := |p| - 1;
    } else {
      i := LastOccurrence(p[..|p| - 1], x);
    }
  }

  lemma {:induction false} FirstOccurrence(p: seq<Node>, x: Node) returns (i: nat)
    requires x in p
    ensures i < |p| && p[i] == x && forall k | 0 <= k < i :: p[k] != x
  {
    if x in p[..|p| - 1] {
      i := FirstOccurrence(p[..|p| - 1], x);
    } else {
      i := |p| - 1;
      forall k | 0 <= k < i
        ensures p[k] != x
      {
        assert p[k] == p[..|p| - 1][k];
      }
    }
  }

  /** What the start reaches without `x` is not dominated by `x`. */
  lemma AvoidedIsNotDominated(g: Graph, x: Node, n: Node)
    requires ReachesAvoiding(g, g.start, n, {x})
    ensures !Dominates(g, x, n)
  {
    var p :| PathBetween(g, p, g.start, n) && forall v | v in p :: v !in {x};
    assert x !in p;
  }

  // ---- Dominance as an order on the dominators of a reachable node

  /** If `a` dominates another node `b` that is reachable, the start reaches `a` without `b`. */
  lemma OuterReachedFirst(g: Graph, a: Node, b: Node)
    requires g.Valid() && Dominates(g, a, b) && a != b && Reachable(g, b)
    ensures ReachesAvoiding(g, g.start, a, {b})
  {
    var w :| PathBetween(g, w, g.start, b);
    var j := FirstOccurrence(w, b);
    SubPath(g, w, 0, j);
    assert a in w[0..j + 1];
    var i :| 0 <= i < j + 1 && w[0..j + 1][i] == a;
    SegmentReaches(g, w, 0, i, {b});
  }

  /** Two dominators of a reachable node are comparable. */
  lemma DominatorsAreOrdered(g: Graph, a: Node, b: Node, n: Node)
    requires g.Valid() && Reachable(g, n) && Dominates(g, a, n) && Dominates(g, b, n)
    ensures Dominates(g, a, b) || Dominates(g, b, a)
  {
    var w :| PathBetween(g, w, g.start, n);
    var i := LastOccurrence(w, a);
    var j := LastOccurrence(w, b);
    if i < j {
      MiddleDominated(g, a, b, n, w, i, j);
    } else if j < i {
      MiddleDominated(g, b, a, n, w, j, i);
    }
  }

  /** After its last `b`, a path is free of `a`: so no path may reach `b` without `a`. */
  lemma MiddleDominated(g: Graph, a: Node, b: Node, n: Node, w: seq<Node>, i: nat, j: nat)
    requires g.Valid() && Dominates(g, a, n) && PathBetween(g, w, g.start, n)
    requires i < j < |w| && w[j] == b && forall k | i < k < |w| :: w[k] != a
    ensures Dominates(g, a, b)
  {
    forall p | PathBetween(g, p, g.start, b)
      ensures a in p
    {
      if a !in p {
        assert PathBetween(g, p, g.start, b) && forall v | v in p :: v !in {a};
        assert ReachesAvoiding(g, g.start, b, {a});
        SegmentReaches(g, w, j, |w| - 1, {a});
        ReachesTransitive(g, g.start, b, n, {a});
        AvoidedIsNotDominated(g, a, n);
        assert false;
      }
    }
  }

  lemma DominatorIsReachable(g: Graph, a: Node, n: Node)
    requires g.Valid() && Reachable(g, n) && Dominates(g, a, n)
    ensures Reachable(g, a)
  {
    var w :| PathBetween(g, w, g.start, n);
    var i :| 0 <= i < |w| && w[i] == a;
    SubPath(g, w, 0, i);
  }

  // ---- Loops built from exact dominators

  /** The header dominates every member of its loop. */
  lemma HeaderDominates(g: Graph, d: DomMap, h: Node, m: Node)
    requires g.Valid() && Exact(g, d) && h in g.nodes && m in LoopOf(g, d, h)
    ensures Dominates(g, h, m)
  {
    forall w | PathBetween(g, w, g.start, m)
      ensures h in w
    {
      if h !in w {
        var s :| s in BackSources(g, d, h) && ReachesAvoiding(g, m, s, {h});
        assert PathBetween(g, w, g.start, m) && forall v | v in w :: v !in {h};
        ReachesTransitive(g, g.start, m, s, {h});
        assert h in Dominators(g, s);
        AvoidedIsNotDominated(g, h, s);
        assert false;
      }
    }
  }

  /** The start node belongs to a loop only as its header. */
  lemma StartOnlyAsHeader(g: Graph, d: DomMap, h: Node)
    requires g.Valid() && Exact(g, d) && h in g.nodes && g.start in LoopOf(g, d, h)
    ensures h == g.start
  {
    HeaderDominates(g, d, h, g.start);
    assert PathBetween(g, [g.start], g.start, g.start);
    assert h in [g.start];
  }

  /** The dominated header of two loops with a reachable node in common lies in the other loop:
      it reaches a back-edge source of the outer header `a` without passing `a`. */
  lemma InnerHeaderReaches(g: Graph, d: DomMap, a: Node, b: Node, n: Node) returns (s: Node)
    requires g.Valid() && Exact(g, d) && a in g.nodes && b in g.nodes && a != b
    requires n in LoopOf(g, d, a) && n in LoopOf(g, d, b) && Reachable(g, n)
    requires Dominates(g, a, b)
    ensures s in BackSources(g, d, a) && ReachesAvoiding(g, b, s, {a})
  {
    hide Exact;
    HeaderDominates(g, d, a, n);
    HeaderDominates(g, d, b, n);
    DominatorIsReachable(g, b, n);
    OuterReachedFirst(g, a, b);
    var w :| PathBetween(g, w, g.start, n);
    var i := LastOccurrence(w, a);
    if forall k | i <= k < |w| :: w[k] != b {
      SegmentReaches(g, w, i, |w| - 1, {b});
      ReachesTransitive(g, g.start, a, n, {b});
      AvoidedIsNotDominated(g, b, n);
      assert false;
    }
    var j :| i <= j < |w| && w[j] == b;
    SegmentReaches(g, w, j, |w| - 1, {a});
    assert n != a;
    s :| s in BackSources(g, d, a) && ReachesAvoiding(g, n, s, {a});
    ReachesTransitive(g, b, n, s, {a});
  }

  /** Two loops with a reachable node in common: the one with the dominated header is inside. */
  lemma DominatedLoopInside(g: Graph, d: DomMap, a: Node, b: Node, n: Node)
    requires g.Valid() && Exact(g, d) && a in g.nodes && b in g.nodes && a != b
    requires n in LoopOf(g, d, a) && n in LoopOf(g, d, b) && Reachable(g, n)
    requires Dominates(g, a, b)
    ensures LoopOf(g, d, b) <= LoopOf(g, d, a) && a !in LoopOf(g, d, b)
  {
    HeaderDominates(g, d, b, n);
    DominatorIsReachable(g, b, n);
    OuterReachedFirst(g, a, b);
    var s := InnerHeaderReaches(g, d, a, b, n);
    forall m | m in LoopOf(g, d, b)
      ensures m in LoopOf(g, d, a)
    {
      if m != b {
        var t :| t in BackSources(g, d, b) && ReachesAvoiding(g, m, t, {b});
        var r :| PathBetween(g, r, m, t) && forall v | v in r :: v !in {b};
        assert a !in r by {
          if a in r {
            var i := LastOccurrence(r, a);
            assert forall k | i <= k < |r| :: r[k] in r;
            SegmentReaches(g, r, i, |r| - 1, {b});
            ReachesTransitive(g, g.start, a, t, {b});
            assert b in Dominators(g, t);
            AvoidedIsNotDominated(g, b, t);
            assert false;
          }
        }
        SegmentReaches(g, r, 0, |r| - 1, {a});
        ReachesStep(g, m, t, b, {a});
        ReachesTransitive(g, m, b, s, {a});
      }
    }
    if a in LoopOf(g, d, b) {
      HeaderDominates(g, d, b, a);
      AvoidedIsNotDominated(g, b, a);
    }
  }

  /** Loops that share a reachable node are properly nested, one way or the other. */
  lemma LoopsNest(g: Graph, d: DomMap, a: Node, b: Node, n: Node)
    requires g.Valid() && Exact(g, d) && a in g.nodes && b in g.nodes && a != b
    requires n in LoopOf(g, d, a) && n in LoopOf(g, d, b) && Reachable(g, n)
    ensures LoopOf(g, d, a) < LoopOf(g, d, b) || LoopOf(g, d, b) < LoopOf(g, d, a)
  {
    HeaderDominates(g, d, a, n);
    HeaderDominates(g, d, b, n);
    DominatorsAreOrdered(g, a, b, n);
    if Dominates(g, a, b) {
      DominatedLoopInside(g, d, a, b, n);
    } else {
      DominatedLoopInside(g, d, b, a, n);
    }
  }

  /** Loops with reachable headers are properly nested if and only if they share a reachable node. */
  lemma NestIffShared(g: Graph, d: DomMap, a: Node, b: Node)
    requires g.Valid() && Exact(g, d) && a in g.nodes && b in g.nodes && a != b
    requires Reachable(g, a) && Reachable(g, b)
    ensures LoopOf(g, d, a) < LoopOf(g, d, b) || LoopOf(g, d, b) < LoopOf(g, d, a) <==>
            exists n :: n in LoopOf(g, d, a) && n in LoopOf(g, d, b) && Reachable(g, n)
  {
    assert a in LoopOf(g, d, a) && b in LoopOf(g, d, b);
    hide LoopOf, Exact, Reachable;
    if n :| n in LoopOf(g, d, a) && n in LoopOf(g, d, b) && Reachable(g, n) {
      LoopsNest(g, d, a, b, n);
    }
  }

  // ---- Nesting by the heads, in dead code too

  /** What reaches an unreachable node is unreachable, and every node counts as dominating it. */
  lemma DeadBefore(g: Graph, d: DomMap, p: Node, a: Node, avoid: set<Node>, h: Node)
    requires g.Valid() && Exact(g, d) && p in g.nodes && h in g.nodes
    requires !Reachable(g, a) && ReachesAvoiding(g, p, a, avoid)
    ensures p in d && h in d[p]
  {
    if Reachable(g, p) {
      var w :| PathBetween(g, w, g.start, p);
      var q :| PathBetween(g, q, p, a);
      JoinPaths(g, w, q, g.start, p, a);
      assert false;
    }
    assert h in Dominators(g, p);
  }

  /** A node that reaches an unreachable node through `b` is in the loop of `b`: what stands before
      the first `b` on the way is unreachable, and so a source of a back edge to `b`. */
  lemma DeadWayIsInside(g: Graph, d: DomMap, b: Node, m: Node, a: Node, w: seq<Node>)
    requires g.Valid() && Exact(g, d) && b in g.nodes
    requires !Reachable(g, a) && PathBetween(g, w, m, a) && b in w
    ensures m in LoopOf(g, d, b)
  {
    PathStaysInside(g, w);
    var j := FirstOccurrence(w, b);
    if j > 0 {
      var p := w[j - 1];
      assert Edge(g, w[j - 1], w[j - 1 + 1]);
      SegmentReaches(g, w, j - 1, |w| - 1, {});
      DeadBefore(g, d, p, a, {}, b);
      assert p in BackSources(g, d, b);
      SegmentReaches(g, w, 0, j - 1, {b});
    }
  }

  /** A loop lies inside another one if and only if its head does, reachable or not. */
  lemma InsideIffHeadInside(g: Graph, d: DomMap, a: Node, b: Node)
    requires g.Valid() && Exact(g, d) && a in g.nodes && b in g.nodes
    ensures LoopOf(g, d, a) <= LoopOf(g, d, b) <==> a in LoopOf(g, d, b)
  {
    assert a in LoopOf(g, d, a);
    if a in LoopOf(g, d, b) && a != b {
      if Reachable(g, a) {
        HeaderDominates(g, d, b, a);
        DominatedLoopInside(g, d, b, a, a);
      } else {
        forall m | m in LoopOf(g, d, a)
          ensures m in LoopOf(g, d, b)
        {
          DeadMemberInside(g, d, a, b, m);
        }
      }
    }
  }

  lemma DeadMemberInside(g: Graph, d: DomMap, a: Node, b: Node, m: Node)
    requires g.Valid() && Exact(g, d) && a in g.nodes && b in g.nodes && a != b
    requires !Reachable(g, a) && a in LoopOf(g, d, b) && m in LoopOf(g, d, a)
    ensures m in LoopOf(g, d, b)
  {
    hide Exact, Reachable;
    if m != a {
      var t :| t in BackSources(g, d, a) && ReachesAvoiding(g, m, t, {a});
      var r :| PathBetween(g, r, m, t) && forall v | v in r :: v !in {a};
      ExtendPath(g, r, m, t, a);
      var w := r + [a];
      if b in w {
        DeadWayIsInside(g, d, b, m, a, w);
      } else {
        var s :| s in BackSources(g, d, b) && ReachesAvoiding(g, a, s, {b});
        assert PathBetween(g, w, m, a) && forall v | v in w :: v !in {b};
        ReachesTransitive(g, m, a, s, {b});
        PathStaysInside(g, w);
        assert m in g.nodes && ReachesAvoiding(g, m, s, {b});
      }
    }
  }

  /** How two loops lie to each other can be read off their heads. */
  lemma HeadsDecide(g: Graph, d: DomMap, a: Node, b: Node)
    requires g.Valid() && Exact(g, d) && a in g.nodes && b in g.nodes
    ensures LoopOf(g, d, a) < LoopOf(g, d, b) <==> a in LoopOf(g, d, b) && b !in LoopOf(g, d, a)
    ensures LoopOf(g, d, a) == LoopOf(g, d, b) <==> a in LoopOf(g, d, b) && b in LoopOf(g, d, a)
  {
    InsideIffHeadInside(g, d, a, b);
    InsideIffHeadInside(g, d, b, a);
    hide LoopOf;
  }

  // ---- Why the common node must be reachable

  /** Dead node 3 jumps into both branches 1 and 2 of the start node 0. */
  function DeadEntry(): Graph {
    Graph([0, 1, 2, 3], 0, map[0 := [], 1 := [0, 3], 2 := [0, 3], 3 := []])
  }

  lemma OnlyTrivialPathToDead(p: seq<Node>, x: Node)
    requires PathBetween(DeadEntry(), p, x, 3)
    ensures x == 3
  {
    var i := |p| - 2;
    assert i >= 0 ==> Edge(DeadEntry(), p[i], p[i + 1]);
  }

  lemma DeadEntryLoop(d: DomMap, h: Node)
    requires Exact(DeadEntry(), d) && (h == 1 || h == 2)
    ensures LoopOf(DeadEntry(), d, h) == {h, 3}
  {
    var g := DeadEntry();
    forall p, x | PathBetween(g, p, x, 3)
      ensures x == 3
    {
      OnlyTrivialPathToDead(p, x);
    }
    assert PathBetween(g, [0], 0, 0);
    assert 0 in g.nodes && 3 in g.nodes && h in g.nodes;
    assert h in Dominators(g, 3);
    assert h !in Dominators(g, 0) by {
      assert h !in [0];
    }
    assert BackSources(g, d, h) == {3};
    assert PathBetween(g, [3], 3, 3) && forall v | v in [3] :: v !in {h};
    assert ReachesAvoiding(g, 3, 3, {h});
  }

  /** Two nodes of dead code in a cycle, with the start node 0 apart. */
  function DeadCycle(): Graph {
    Graph([0, 1, 2], 0, map[0 := [], 1 := [2], 2 := [1]])
  }

  lemma DeadCycleUnreached(p: seq<Node>, n: Node)
    requires PathBetween(DeadCycle(), p, 0, n)
    ensures n == 0
  {
    var i := |p| - 2;
    if i >= 0 {
      assert Edge(DeadCycle(), p[i], p[i + 1]);
      SubPath(DeadCycle(), p, 0, i);
      DeadCycleUnreached(p[0..i + 1], p[i]);
    }
  }

  /** Loops of dead code can have different heads and the same nodes. */
  lemma DeadCycleTwins(d: DomMap)
    requires Exact(DeadCycle(), d)
    ensures DeadCycle().Valid()
    ensures LoopOf(DeadCycle(), d, 1) == LoopOf(DeadCycle(), d, 2) == {1, 2}
  {
    var g := DeadCycle();
    forall p, n | PathBetween(g, p, 0, n)
      ensures n == 0
    {
      DeadCycleUnreached(p, n);
    }
    assert 1 in g.nodes && 2 in g.nodes;
    assert 1 in Dominators(g, 2) && 2 in Dominators(g, 1);
    DeadCycleLoop(d, 1, 2);
    DeadCycleLoop(d, 2, 1);
    HeadsDecide(g, d, 1, 2);
  }

  lemma DeadCycleLoop(d: DomMap, h: Node, s: Node)
    requires {h, s} == {1, 2} && h != s && s in d && h in d[s]
    ensures LoopOf(DeadCycle(), d, h) == {1, 2}
  {
    var g := DeadCycle();
    assert h in g.nodes && s in g.nodes;
    assert BackSources(g, d, h) == {s};
    assert PathBetween(g, [s], s, s) && forall v | v in [s] :: v !in {h};
    assert ReachesAvoiding(g, s, s, {h});
    assert !ReachesAvoiding(g, 0, s, {h}) by {
      if p :| PathBetween(g, p, 0, s) {
        DeadCycleUnreached(p, s);
      }
    }
  }

  /** Two loops can overlap partially when they share only dead code. */
  lemma DeadCodeBreaksNesting(d: DomMap)
    requires Exact(DeadEntry(), d)
    ensures DeadEntry().Valid()
    ensures var a, b := LoopOf(DeadEntry(), d, 1), LoopOf(DeadEntry(), d, 2);
            3 in a && 3 in b && !(a <= b) && !(b <= a)
  {
    DeadEntryLoop(d, 1);
    DeadEntryLoop(d, 2);
    assert 1 !in {2, 3} && 2 !in {1, 3};
    assert DeadEntry().Valid();
    assert 1 in DeadEntry().nodes && 2 in DeadEntry().nodes;
    hide LoopOf, Exact;
    InsideIffHeadInside(DeadEntry(), d, 1, 2);
    InsideIffHeadInside(DeadEntry(), d, 2, 1);
  }
}
