/** Which loop a loop-bound annotation goes to, on the node sets of the loops. */
module InnermostSpec {
  import opened Sequences
  import opened FlowGraph
  import opened DominatorSpec
  import opened LoopSpec

  /** The position held by `inner` after the first `k` loops were compared, starting from `my`. */
  ghost function Scan(sets: seq<set<Node>>, n: Node, my: nat, k: nat): (inner: nat)
    requires my < |sets| && k <= |sets|
    ensures inner < |sets|
  {
    if k == 0 then my
    else
      var inner := Scan(sets, n, my, k - 1);
      if k - 1 != my && n in sets[k - 1] && sets[k - 1] <= sets[inner] then k - 1 else inner
  }

  ghost function Chosen(sets: seq<set<Node>>, n: Node, my: nat): (inner: nat)
    requires my < |sets|
    ensures inner < |sets|
  {
    Scan(sets, n, my, |sets|)
  }

  /** Loop `m` contains `n` and is inside every loop that contains `n`. */
  ghost predicate Least(sets: seq<set<Node>>, n: Node, m: nat) {
    && m < |sets| && n in sets[m]
    && forall j | 0 <= j < |sets| && n in sets[j] :: sets[m] <= sets[j]
  }

  /** Of any two loops containing `n`, one is inside the other. */
  ghost predicate NestedAround(sets: seq<set<Node>>, n: Node) {
    forall i, j | 0 <= i < |sets| && 0 <= j < |sets| && n in sets[i] && n in sets[j] ::
      sets[i] <= sets[j] || sets[j] <= sets[i]
  }

  lemma {:induction false} ScanShrinks(sets: seq<set<Node>>, n: Node, my: nat, k: nat)
    requires my < |sets| && k <= |sets| && n in sets[my]
    ensures n in sets[Scan(sets, n, my, k)] && sets[Scan(sets, n, my, k)] <= sets[my]
  {
    if k > 0 {
      ScanShrinks(sets, n, my, k - 1);
    }
  }

  /** A least loop stops the scan, from wherever it started. */
  lemma {:induction false} ScanReachesLeast(sets: seq<set<Node>>, n: Node, my: nat, k: nat, m: nat)
    requires my < |sets| && k <= |sets| && n in sets[my] && Least(sets, n, m)
    ensures m < k || m == my ==> sets[Scan(sets, n, my, k)] == sets[m]
  {
    if k > 0 {
      ScanShrinks(sets, n, my, k - 1);
      ScanShrinks(sets, n, my, k);
      ScanReachesLeast(sets, n, my, k - 1, m);
    }
  }

  /** Among nested loops the scan ends inside every loop it has looked at. */
  lemma {:induction false} ScanInsideSeen(sets: seq<set<Node>>, n: Node, my: nat, k: nat, j: nat)
    requires my < |sets| && k <= |sets| && n in sets[my] && NestedAround(sets, n)
    requires j < k && n in sets[j]
    ensures sets[Scan(sets, n, my, k)] <= sets[j]
  {
    ScanShrinks(sets, n, my, k);
    ScanShrinks(sets, n, my, k - 1);
    if j < k - 1 {
      ScanInsideSeen(sets, n, my, k - 1, j);
    }
  }

  lemma NestedHasLeast(sets: seq<set<Node>>, n: Node, my: nat)
    requires my < |sets| && n in sets[my] && NestedAround(sets, n)
    ensures Least(sets, n, Chosen(sets, n, my))
  {
    ScanShrinks(sets, n, my, |sets|);
    forall j | 0 <= j < |sets| && n in sets[j]
      ensures sets[Chosen(sets, n, my)] <= sets[j]
    {
      ScanInsideSeen(sets, n, my, |sets|, j);
    }
  }

  /** All scans for `n` end at the same set of nodes, wherever they start. */
  ghost predicate SameSetChosen(sets: seq<set<Node>>, n: Node) {
    forall i, j | 0 <= i < |sets| && 0 <= j < |sets| && n in sets[i] && n in sets[j] ::
      sets[Chosen(sets, n, i)] == sets[Chosen(sets, n, j)]
  }

  /** All scans for `n` end at the same loop, wherever they start. */
  ghost predicate SameLoopChosen(sets: seq<set<Node>>, n: Node) {
    forall i, j | 0 <= i < |sets| && 0 <= j < |sets| && n in sets[i] && n in sets[j] ::
      Chosen(sets, n, i) == Chosen(sets, n, j)
  }

  /** Loop `m` is least around `n`, and no other loop has its node set. */
  ghost predicate OnlyLeast(sets: seq<set<Node>>, n: Node, m: nat) {
    Least(sets, n, m) && forall j | 0 <= j < |sets| && j != m :: sets[j] != sets[m]
  }

  lemma LeastIsChosen(sets: seq<set<Node>>, n: Node, m: nat)
    requires Least(sets, n, m)
    ensures forall i | 0 <= i < |sets| && n in sets[i] :: sets[Chosen(sets, n, i)] == sets[m]
  {
    forall i | 0 <= i < |sets| && n in sets[i]
      ensures sets[Chosen(sets, n, i)] == sets[m]
    {
      ScanReachesLeast(sets, n, i, |sets|, m);
    }
  }

  lemma SameSetMakesLeast(sets: seq<set<Node>>, n: Node, my: nat)
    requires my < |sets| && n in sets[my] && SameSetChosen(sets, n)
    ensures Least(sets, n, Chosen(sets, n, my))
  {
    ScanShrinks(sets, n, my, |sets|);
    forall j | 0 <= j < |sets| && n in sets[j]
      ensures sets[Chosen(sets, n, my)] <= sets[j]
    {
      ScanShrinks(sets, n, j, |sets|);
    }
  }

  /** The node set of the chosen loop does not depend on where the scan starts
      if and only if there is a least loop around the node. */
  lemma SameSetIffLeast(sets: seq<set<Node>>, n: Node, my: nat)
    requires my < |sets| && n in sets[my]
    ensures SameSetChosen(sets, n) <==> exists m: nat :: Least(sets, n, m)
  {
    if m: nat :| Least(sets, n, m) {
      LeastIsChosen(sets, n, m);
    }
    if SameSetChosen(sets, n) {
      SameSetMakesLeast(sets, n, my);
    }
  }

  /** A scan that starts at a least loop leaves it for good at a loop of the same nodes. */
  lemma {:induction false} ScanLeavesTwin(sets: seq<set<Node>>, n: Node, my: nat, k: nat, j: nat)
    requires Least(sets, n, my) && j < k <= |sets| && j != my && sets[j] == sets[my]
    ensures Scan(sets, n, my, k) != my
  {
    ScanShrinks(sets, n, my, k - 1);
    if j < k - 1 {
      ScanLeavesTwin(sets, n, my, k - 1, j);
    }
  }

  /** The loop that gets the bound does not depend on where the scan starts if and only if one loop
      around the node is inside all others and has no twin with the same nodes. */
  lemma SameLoopIffOnlyLeast(sets: seq<set<Node>>, n: Node, my: nat)
    requires my < |sets| && n in sets[my]
    ensures SameLoopChosen(sets, n) <==> exists m: nat :: OnlyLeast(sets, n, m)
  {
    if m: nat :| OnlyLeast(sets, n, m) {
      LeastIsChosen(sets, n, m);
    }
    if SameLoopChosen(sets, n) {
      var m := Chosen(sets, n, my);
      SameSetMakesLeast(sets, n, my);
      assert Chosen(sets, n, m) == m;
      forall j | 0 <= j < |sets| && j != m
        ensures sets[j] != sets[m]
      {
        if sets[j] == sets[m] {
          ScanLeavesTwin(sets, n, m, |sets|, j);
        }
      }
      assert OnlyLeast(sets, n, m);
    }
  }

  /** With twins the bound goes to both: the loops of a cycle of dead code. */
  lemma TwinsShareTheBound(d: DomMap)
    requires Exact(DeadCycle(), d)
    ensures var sets := [LoopOf(DeadCycle(), d, 1), LoopOf(DeadCycle(), d, 2)];
            && Least(sets, 1, 0) && Least(sets, 1, 1)
            && Chosen(sets, 1, 0) == 1 && Chosen(sets, 1, 1) == 0
  {
    DeadCycleTwins(d);
    var sets := [LoopOf(DeadCycle(), d, 1), LoopOf(DeadCycle(), d, 2)];
    hide LoopOf, Exact;
    assert sets[0] == {1, 2} && sets[1] == {1, 2} && |sets| == 2;
    assert Scan(sets, 1, 0, 1) == 0 && Scan(sets, 1, 0, 2) == 1;
    assert Scan(sets, 1, 1, 1) == 0 && Scan(sets, 1, 1, 2) == 0;
  }

  // ---- Bounds

  const LOOP_MAXITER: int := 1

  /** An annotation of the binary, with the node found for its address (-1 stands for none). */
  datatype Annotation = Annotation(kind: int, value: int, node: int)

  /** One of the scans from the first `k` loops for annotation `a` ends at loop `j`. */
  ghost predicate HitsFrom(sets: seq<set<Node>>, a: Annotation, j: nat, k: nat)
    requires k <= |sets|
  {
    && a.kind == LOOP_MAXITER && a.node >= 0
    && exists my | 0 <= my < k :: a.node in sets[my] && Chosen(sets, a.node, my) == j
  }

  /** Some scan for annotation `a` ends at loop `j`. */
  ghost predicate Hits(sets: seq<set<Node>>, a: Annotation, j: nat) {
    HitsFrom(sets, a, j, |sets|)
  }

  /** `i` is the last of the annotations that hits loop `j`. */
  ghost predicate LastHit(sets: seq<set<Node>>, annots: seq<Annotation>, j: nat, i: nat) {
    && i < |annots| && Hits(sets, annots[i], j)
    && forall k | i < k < |annots| :: !Hits(sets, annots[k], j)
  }

  /** `bound` is the value of the last annotation that hits loop `j`, or `prior` without one. */
  ghost predicate IsBound(sets: seq<set<Node>>, annots: seq<Annotation>, j: nat, prior: Bound, bound: Bound) {
    && (forall i: nat | LastHit(sets, annots, j, i) :: bound == Bounded(annots[i].value))
    && ((forall i | 0 <= i < |annots| :: !Hits(sets, annots[i], j)) ==> bound == prior)
  }

  lemma OneMoreAnnotation(sets: seq<set<Node>>, annots: seq<Annotation>, a: Annotation, j: nat, prior: Bound, bound: Bound)
    requires IsBound(sets, annots, j, prior, bound)
    ensures IsBound(sets, annots + [a], j, prior, if Hits(sets, a, j) then Bounded(a.value) else bound)
  {
    var all := annots + [a];
    forall i: nat | LastHit(sets, all, j, i)
      ensures (if Hits(sets, a, j) then Bounded(a.value) else bound) == Bounded(all[i].value)
    {
      assert all[|annots|] == a;
      if i < |annots| {
        assert forall k | i < k < |annots| :: all[k] == annots[k];
        assert LastHit(sets, annots, j, i);
      }
    }
    if forall i | 0 <= i < |all| :: !Hits(sets, all[i], j) {
      assert all[|annots|] == a;
      assert forall i | 0 <= i < |annots| :: all[i] == annots[i];
    }
  }

  /** In the loops of a flow graph with exact dominators, the annotation of a reachable node
      hits one loop only: the least one around the node. */
  lemma HitsInnermostOnly(g: Graph, d: DomMap, heads: seq<Node>, sets: seq<set<Node>>, a: Annotation, j: nat)
    requires g.Valid() && Exact(g, d) && NoDuplicates(heads) && |heads| == |sets|
    requires forall i | 0 <= i < |heads| :: heads[i] in g.nodes && sets[i] == LoopOf(g, d, heads[i])
    requires a.kind == 1 && a.node >= 0 && Reachable(g, a.node)
    ensures Hits(sets, a, j) <==> Least(sets, a.node, j)
  {
    LoopsAroundReachableNest(g, d, heads, sets, a.node);
    if my :| 0 <= my < |sets| && a.node in sets[my] && Chosen(sets, a.node, my) == j {
      NestedHasLeast(sets, a.node, my);
    }
    if Least(sets, a.node, j) {
      NestedHasLeast(sets, a.node, j);
      assert sets[Chosen(sets, a.node, j)] == sets[j];
      assert Chosen(sets, a.node, j) == j;
    }
  }

  /** `i` is the last of the annotations whose innermost loop is `j`. */
  ghost predicate LastInnermost(sets: seq<set<Node>>, annots: seq<Annotation>, j: nat, i: nat) {
    && i < |annots| && IsInnermost(sets, annots[i], j)
    && forall k | i < k < |annots| :: !IsInnermost(sets, annots[k], j)
  }

  ghost predicate IsInnermost(sets: seq<set<Node>>, a: Annotation, j: nat) {
    a.kind == LOOP_MAXITER && a.node >= 0 && Least(sets, a.node, j)
  }

  /** Each loop has the value of the last annotation whose innermost loop it is, or its prior bound. */
  ghost predicate BoundsAreInnermost(sets: seq<set<Node>>, annots: seq<Annotation>, prior: seq<Bound>, bounds: seq<Bound>) {
    && |prior| == |bounds| == |sets|
    && (forall j: nat, i: nat | j < |sets| && LastInnermost(sets, annots, j, i) ::
          bounds[j] == Bounded(annots[i].value))
    && (forall j | 0 <= j < |sets| ::
          (forall i | 0 <= i < |annots| :: !IsInnermost(sets, annots[i], j)) ==> bounds[j] == prior[j])
  }

  /** With exact dominators and reachable annotated nodes, hits and innermost loops are the same. */
  lemma BoundsGoInnermost(g: Graph, d: DomMap, heads: seq<Node>, sets: seq<set<Node>>,
                          annots: seq<Annotation>, prior: seq<Bound>, bounds: seq<Bound>)
    requires g.Valid() && Exact(g, d) && NoDuplicates(heads) && |heads| == |sets| == |prior| == |bounds|
    requires forall i | 0 <= i < |heads| :: heads[i] in g.nodes && sets[i] == LoopOf(g, d, heads[i])
    requires forall a | a in annots && a.node >= 0 :: Reachable(g, a.node)
    requires forall j | 0 <= j < |sets| :: IsBound(sets, annots, j, prior[j], bounds[j])
    ensures BoundsAreInnermost(sets, annots, prior, bounds)
  {
    forall i, j: nat | 0 <= i < |annots|
      ensures Hits(sets, annots[i], j) <==> IsInnermost(sets, annots[i], j)
    {
      if annots[i].kind == LOOP_MAXITER && annots[i].node >= 0 {
        HitsInnermostOnly(g, d, heads, sets, annots[i], j);
      }
    }
    forall j: nat, i: nat | j < |sets| && LastInnermost(sets, annots, j, i)
      ensures bounds[j] == Bounded(annots[i].value)
    {
      assert LastHit(sets, annots, j, i);
    }
  }

  lemma LoopsAroundReachableNest(g: Graph, d: DomMap, heads: seq<Node>, sets: seq<set<Node>>, n: Node)
    requires g.Valid() && Exact(g, d) && NoDuplicates(heads) && |heads| == |sets|
    requires forall i | 0 <= i < |heads| :: heads[i] in g.nodes && sets[i] == LoopOf(g, d, heads[i])
    requires Reachable(g, n)
    ensures NestedAround(sets, n)
    ensures forall i, j | 0 <= i < |sets| && 0 <= j < |sets| && n in sets[i] && n in sets[j] && i != j ::
              sets[i] != sets[j]
  {
    forall i, j | 0 <= i < |sets| && 0 <= j < |sets| && n in sets[i] && n in sets[j] && i != j
      ensures sets[i] < sets[j] || sets[j] < sets[i]
    {
      assert heads[i] != heads[j];
      LoopsNest(g, d, heads[i], heads[j], n);
    }
  }
}

/** `AttachAnnotationFromBinary`, from the annotations with their nodes on: the bounds of loops. */
module Annotations {
  import opened Sequences
  import opened FlowGraph
  import opened DominatorSpec
  import opened LoopSpec
  import opened LoopAnalysis
  import opened InnermostSpec
  import opened DominatorAnalysis

  ghost function NodeSets(ll: seq<Loop>): seq<set<Node>>
    reads ll
  {
    seq(|ll|, i requires 0 <= i < |ll| reads ll => ll[i].nodes)
  }

  /** The node set of `l` is inside that of `other`. */
  predicate IsNestedIn(l: Loop, other: Loop)
    reads l, other
  {
    l.nodes <= other.nodes
  }

  /** The innermost loop around `n`, searched from loop number `nl`. */
  method SearchInner(ll: seq<Loop>, nl: nat, n: Node) returns (inner: Loop)
    requires NoDuplicates(ll) && nl < |ll|
    ensures inner == ll[Chosen(NodeSets(ll), n, nl)]
  {
    var myloop := ll[nl];
    inner := myloop;
    for ol := 0 to |ll|
      invariant inner == ll[Scan(NodeSets(ll), n, nl, ol)]
    {
      var otherloop := ll[ol];
      if otherloop != myloop {
        if otherloop.FindInLoop(n) && IsNestedIn(otherloop, inner) {
          inner := otherloop;
        }
      }
    }
  }

  /** Sets the bound of `inner`, over a different bound it may have. */
  method SetBound(inner: Loop, value: int)
    modifies inner`maxiter
    ensures inner.maxiter == Bounded(value)
  {
    if inner.maxiter == Unbounded {
      inner.maxiter := Bounded(value);
    } else if inner.maxiter.value != value {
      inner.maxiter := Bounded(value);
    }
  }

  /** Sends one annotation to the loops that its scans end at. */
  method AttachOne(ll: seq<Loop>, a: Annotation)
    requires NoDuplicates(ll)
    modifies set l | l in ll :: l`maxiter
    ensures forall j | 0 <= j < |ll| ::
              ll[j].maxiter == if Hits(old(NodeSets(ll)), a, j) then Bounded(a.value) else old(ll[j].maxiter)
  {
    ghost var sets := NodeSets(ll);
    if a.node >= 0 {
      if a.kind == LOOP_MAXITER {
        var n: Node := a.node;
        for nl := 0 to |ll|
          invariant NodeSets(ll) == sets
          invariant forall j | 0 <= j < |ll| ::
              ll[j].maxiter == if HitsFrom(sets, a, j, nl) then Bounded(a.value) else old(ll[j].maxiter)
        {
          ghost var before := seq(|ll|, j requires 0 <= j < |ll| reads ll => ll[j].maxiter);
          var myloop := ll[nl];
          if myloop.FindInLoop(n) {
            var inner := SearchInner(ll, nl, n);
            ghost var at := Chosen(sets, n, nl);
            assert inner in ll;
            SetBound(inner, a.value);
            assert forall j | 0 <= j < |ll| :: ll[j].maxiter == if j == at then Bounded(a.value) else before[j];
          }
          assert forall j | 0 <= j < |ll| ::
              HitsFrom(sets, a, j, nl + 1) <==>
              HitsFrom(sets, a, j, nl) || (n in sets[nl] && Chosen(sets, n, nl) == j);
        }
      }
    }
  }

  /** Attaches all annotations in order. */
  method Attach(ll: seq<Loop>, annots: seq<Annotation>)
    requires NoDuplicates(ll)
    modifies set l | l in ll :: l`maxiter
    ensures forall j | 0 <= j < |ll| ::
              IsBound(old(NodeSets(ll)), annots, j, old(ll[j].maxiter), ll[j].maxiter)
  {
    ghost var sets := NodeSets(ll);
    for i := 0 to |annots|
      invariant NodeSets(ll) == sets
      invariant forall j | 0 <= j < |ll| :: IsBound(sets, annots[..i], j, old(ll[j].maxiter), ll[j].maxiter)
    {
      ghost var before := seq(|ll|, j requires 0 <= j < |ll| reads ll => ll[j].maxiter);
      AttachOne(ll, annots[i]);
      assert annots[..i + 1] == annots[..i] + [annots[i]];
      forall j | 0 <= j < |ll|
        ensures IsBound(sets, annots[..i + 1], j, old(ll[j].maxiter), ll[j].maxiter)
      {
        OneMoreAnnotation(sets, annots[..i], annots[i], j, old(ll[j].maxiter), before[j]);
      }
    }
    assert annots[..|annots|] == annots;
  }

  /** The loops of `ll` are the natural loops of distinct nodes, those that back edges lead to. */
  ghost predicate AreLoops(g: Graph, d: DomMap, heads: seq<Node>, sets: seq<set<Node>>) {
    && NoDuplicates(heads) && |heads| == |sets|
    && (forall i | 0 <= i < |heads| :: heads[i] in g.nodes && sets[i] == LoopOf(g, d, heads[i]))
    && (forall h | h in g.nodes :: h in heads <==> BackSources(g, d, h) != {})
  }

  /** Dominators, then loops. `unsettled` tells that the pass cap cut the dominators off. */
  method CreateLoops(g: Graph) returns (computer: LoopComputer, ghost d: DomMap, ghost unsettled: bool)
    requires g.Valid()
    ensures fresh(computer) && forall l | l in computer.loops :: fresh(l) && l.maxiter == Unbounded
    ensures AreLoops(g, d, Heads(computer.loops), NodeSets(computer.loops))
    ensures Settling(g, d) && (!unsettled ==> Exact(g, d))
    ensures Exact(g, d) <==> CheapDetours(g, MAX_PASSES)
    ensures |g.nodes| <= 22 ==> Exact(g, d)
  {
    hide CheapDetours, Exact, Settling, NaturalLoop, BackSources;
    var dominators := new DominatorComputer(g);
    ghost var passes;
    passes, unsettled := dominators.ComputeDominator();
    d := dominators.Sets();
    computer := new LoopComputer(g, dominators.attribute);
    computer.ComputeLoop();
    assert forall i | 0 <= i < |computer.loops| :: computer.loops[i] in computer.loops;
  }

  /** The bound that an annotation file gives to the loop of a head, if any. */
  function Earlier(bounds: map<Node, int>, head: Node): Bound {
    if head in bounds then Bounded(bounds[head]) else Unbounded
  }

  ghost function Priors(bounds: map<Node, int>, heads: seq<Node>): (prior: seq<Bound>)
    ensures |prior| == |heads|
    ensures forall i | 0 <= i < |heads| :: prior[i] == if heads[i] in bounds then Bounded(bounds[heads[i]]) else Unbounded
  {
    seq(|heads|, i requires 0 <= i < |heads| => Earlier(bounds, heads[i]))
  }

  /** Bounds from an annotation file, before those of the binary. */
  method AttachEarlier(ll: seq<Loop>, bounds: map<Node, int>)
    requires NoDuplicates(ll) && forall l | l in ll :: l.maxiter == Unbounded
    modifies set l | l in ll :: l`maxiter
    ensures forall j | 0 <= j < |ll| ::
              ll[j].maxiter == if ll[j].head in bounds then Bounded(bounds[ll[j].head]) else Unbounded
  {
    for i := 0 to |ll|
      invariant forall j | 0 <= j < |ll| :: ll[j].maxiter == if j < i then Earlier(bounds, ll[j].head) else Unbounded
    {
      assert ll[i] in ll;
      if ll[i].head in bounds {
        ll[i].maxiter := Bounded(bounds[ll[i].head]);
      }
    }
  }

  ghost function Bounds(ll: seq<Loop>): seq<Bound>
    reads ll
  {
    seq(|ll|, i requires 0 <= i < |ll| reads ll => ll[i].maxiter)
  }

  /** Both kinds of annotation on loops without bounds. */
  method AttachAll(ll: seq<Loop>, earlier: map<Node, int>, annots: seq<Annotation>)
    requires NoDuplicates(ll) && forall l | l in ll :: l.maxiter == Unbounded
    modifies set l | l in ll :: l`maxiter
    ensures NodeSets(ll) == old(NodeSets(ll))
    ensures forall j | 0 <= j < |ll| ::
              IsBound(NodeSets(ll), annots, j, Priors(earlier, Heads(ll))[j], Bounds(ll)[j])
  {
    hide IsBound;
    assert forall i | 0 <= i < |ll| :: ll[i] in ll;
    AttachEarlier(ll, earlier);
    assert NodeSets(ll) == old(NodeSets(ll));
    Attach(ll, annots);
  }

  /** The loop part of the program's finalisation for one graph: dominators, loops, bounds from an
      annotation file, bounds from the binary. With exact dominators every bound is at its innermost loop. */
  method FinalizeLoops(g: Graph, earlier: map<Node, int>, annots: seq<Annotation>)
    returns (computer: LoopComputer, ghost d: DomMap, ghost unsettled: bool)
    requires g.Valid()
    ensures fresh(computer)
    ensures AreLoops(g, d, Heads(computer.loops), NodeSets(computer.loops))
    ensures !unsettled ==> Exact(g, d)
    ensures Exact(g, d) <==> CheapDetours(g, MAX_PASSES)
    ensures |g.nodes| <= 22 ==> Exact(g, d)
    ensures Exact(g, d) && (forall a | a in annots && a.node >= 0 :: Reachable(g, a.node)) ==>
              BoundsAreInnermost(NodeSets(computer.loops), annots,
                                 Priors(earlier, Heads(computer.loops)), Bounds(computer.loops))
  {
    hide CheapDetours, Exact, BoundsAreInnermost, IsBound;
    computer, d, unsettled := CreateLoops(g);
    var ll := computer.loops;
    HeadsApart(ll);
    AttachAll(ll, earlier, annots);
    if Exact(g, d) && forall a | a in annots && a.node >= 0 :: Reachable(g, a.node) {
      BoundsGoInnermost(g, d, Heads(ll), NodeSets(ll), annots, Priors(earlier, Heads(ll)), Bounds(ll));
    }
  }

  lemma HeadsApart(ll: seq<Loop>)
    requires NoDuplicates(Heads(ll))
    ensures NoDuplicates(ll)
  {
    forall i, j | 0 <= i < j < |ll|
      ensures ll[i] != ll[j]
    {
      assert Heads(ll)[i] != Heads(ll)[j];
    }
  }
}
