/** The dominator equations, solved by in-place passes over the nodes, on values.

    `Iterate(g, k)` is what `k` passes of the analysis leave. The lemmas relate it to the
    path-based meaning of dominance and say exactly how many passes are enough. */
module DominatorSpec {
  import opened Sequences
  import opened FlowGraph

  type DomMap = map<Node, set<Node>>

  /** The full set cut down by the set of each predecessor, plus the node itself. */
  ghost function Transfer(g: Graph, d: DomMap, n: Node): set<Node> {
    set x | x in g.nodes && (x == n || forall p | p in g.Predecessors(n) :: p in d && x in d[p])
  }

  ghost function UpdateNode(g: Graph, d: DomMap, n: Node): DomMap {
    if n == g.start then d else d[n := Transfer(g, d, n)]
  }

  /** The in-place update of the first `k` nodes: each one reads what those before it wrote. */
  ghost function PassPrefix(g: Graph, d: DomMap, k: nat): DomMap
    requires k <= |g.nodes|
  {
    if k == 0 then d else UpdateNode(g, PassPrefix(g, d, k - 1), g.nodes[k - 1])
  }

  ghost function Pass(g: Graph, d: DomMap): DomMap {
    PassPrefix(g, d, |g.nodes|)
  }

  ghost function InitialSets(g: Graph): DomMap {
    map n | n in g.nodes :: if n == g.start then {n} else g.NodeSet()
  }

  ghost function Iterate(g: Graph, k: nat): DomMap {
    if k == 0 then InitialSets(g) else Pass(g, Iterate(g, k - 1))
  }

  /** Every node's set is exactly the set of its dominators. */
  ghost predicate Exact(g: Graph, d: DomMap) {
    forall n | n in g.nodes :: n in d && d[n] == Dominators(g, n)
  }

  // ---- What every update keeps

  /** The sets lie above what the equations would now compute, and below the full set. */
  ghost predicate Descending(g: Graph, d: DomMap) {
    && d.Keys == g.NodeSet()
    && g.start in d && d[g.start] == {g.start}
    && (forall n | n in d :: n in d[n] && d[n] <= g.NodeSet())
    && (forall n | n in d && n != g.start :: Transfer(g, d, n) <= d[n])
  }

  /** No set has grown. */
  ghost predicate Below(d: DomMap, e: DomMap) {
    d.Keys == e.Keys && forall n | n in d :: d[n] <= e[n]
  }

  /** Every dominator of a node is in the node's set. */
  ghost predicate Sound(g: Graph, d: DomMap) {
    forall n | n in d :: Dominators(g, n) <= d[n]
  }

  ghost predicate Settling(g: Graph, d: DomMap) {
    Descending(g, d) && Sound(g, d)
  }

  lemma InitialSettling(g: Graph)
    requires g.Valid()
    ensures Settling(g, InitialSets(g))
  {
    var d := InitialSets(g);
    assert PathBetween(g, [g.start], g.start, g.start);
    forall x | x in Dominators(g, g.start)
      ensures x in d[g.start]
    {
      assert x in [g.start];
    }
  }

  /** A dominator of `n` other than `n` dominates every predecessor of `n`. */
  lemma DominatesPredecessors(g: Graph, x: Node, n: Node, p: Node)
    requires g.Valid() && n in g.nodes && p in g.Predecessors(n)
    requires Dominates(g, x, n) && x != n
    ensures Dominates(g, x, p)
  {
    forall w | PathBetween(g, w, g.start, p)
      ensures x in w
    {
      ExtendPath(g, w, g.start, p, n);
      assert x in w + [n];
    }
  }

  lemma UpdateKeeps(g: Graph, d: DomMap, n: Node)
    requires g.Valid() && n in g.nodes && Settling(g, d)
    ensures Settling(g, UpdateNode(g, d, n))
    ensures Below(UpdateNode(g, d, n), d)
  {
    if n != g.start {
      var e := UpdateNode(g, d, n);
      assert Below(e, d);
      forall m | m in e && m != g.start
        ensures Transfer(g, e, m) <= e[m]
      {
        assert Transfer(g, e, m) <= Transfer(g, d, m);
      }
      forall x | x in Dominators(g, n) && x != n
        ensures x in e[n]
      {
        forall p | p in g.Predecessors(n)
          ensures x in d[p]
        {
          DominatesPredecessors(g, x, n, p);
          assert x in Dominators(g, p);
        }
      }
    }
  }

  lemma {:induction false} PassPrefixKeeps(g: Graph, d: DomMap, k: nat)
    requires g.Valid() && k <= |g.nodes| && Settling(g, d)
    ensures Settling(g, PassPrefix(g, d, k))
    ensures Below(PassPrefix(g, d, k), d)
  {
    if k > 0 {
      PassPrefixKeeps(g, d, k - 1);
      UpdateKeeps(g, PassPrefix(g, d, k - 1), g.nodes[k - 1]);
    }
  }

  /** In every pass the sets only shrink and always contain the true dominators. */
  lemma {:induction false} IterateKeeps(g: Graph, k: nat)
    requires g.Valid()
    ensures Settling(g, Iterate(g, k))
    ensures Below(Iterate(g, k + 1), Iterate(g, k))
  {
    if k == 0 {
      InitialSettling(g);
    } else {
      IterateKeeps(g, k - 1);
      PassPrefixKeeps(g, Iterate(g, k - 1), |g.nodes|);
    }
    PassPrefixKeeps(g, Iterate(g, k), |g.nodes|);
  }

  /** Seen from the start of a pass, the update of one node adds a change exactly when it
      changes that node's set: sets never go back to what they were. */
  lemma PassStepChanges(g: Graph, before: DomMap, i: nat)
    requires g.Valid() && i < |g.nodes| && Settling(g, before)
    ensures var now, next, n := PassPrefix(g, before, i), PassPrefix(g, before, i + 1), g.nodes[i];
            && next == UpdateNode(g, now, n)
            && n in now && n in next
            && (next != before <==> now != before || next[n] != now[n])
  {
    PassPrefixKeeps(g, before, i);
    var now, n := PassPrefix(g, before, i), g.nodes[i];
    UpdateKeeps(g, now, n);
    var next := UpdateNode(g, now, n);
    if next == before {
      forall m | m in now
        ensures now[m] == before[m]
      {
        assert next[m] <= now[m] <= before[m];
      }
      assert now == before;
    }
  }

  // ---- What one pass writes

  lemma {:induction false} PassKeepsKeys(g: Graph, d: DomMap, k: nat)
    requires g.Valid() && d.Keys == g.NodeSet() && k <= |g.nodes|
    ensures PassPrefix(g, d, k).Keys == d.Keys
  {
    if k > 0 {
      PassKeepsKeys(g, d, k - 1);
    }
  }

  /** Later updates of a pass leave the node at position `i` alone. */
  lemma {:induction false} PassLeavesOthers(g: Graph, d: DomMap, i: nat, k: nat)
    requires g.Valid() && d.Keys == g.NodeSet() && i < |g.nodes| && k <= |g.nodes|
    ensures PassPrefix(g, d, k).Keys == PassPrefix(g, d, i + 1).Keys == d.Keys
    ensures k <= i ==> PassPrefix(g, d, k)[g.nodes[i]] == d[g.nodes[i]]
    ensures i < k ==> PassPrefix(g, d, k)[g.nodes[i]] == PassPrefix(g, d, i + 1)[g.nodes[i]]
  {
    PassKeepsKeys(g, d, k);
    PassKeepsKeys(g, d, i + 1);
    if k > 0 {
      PassLeavesOthers(g, d, i, k - 1);
    }
  }

  /** A pass that changes nothing proves the equations hold. */
  lemma QuietPassSolves(g: Graph, d: DomMap, n: Node)
    requires g.Valid() && Descending(g, d) && Pass(g, d) == d && n in g.nodes && n != g.start
    ensures d[n] == Transfer(g, d, n)
  {
    var i :| 0 <= i < |g.nodes| && g.nodes[i] == n;
    var e := PassPrefix(g, d, i);
    PassKeepsKeys(g, d, i);
    forall m | m in d
      ensures e[m] == d[m]
    {
      var j :| 0 <= j < |g.nodes| && g.nodes[j] == m;
      PassLeavesOthers(g, d, j, i);
      PassLeavesOthers(g, d, j, |g.nodes|);
    }
    PassLeavesOthers(g, d, i, |g.nodes|);
    assert e == d;
  }

  // ---- The fixed point is exact

  lemma {:induction false} SolutionIsOnPath(g: Graph, d: DomMap, x: Node, n: Node, w: seq<Node>)
    requires g.Valid() && Descending(g, d)
    requires forall m | m in g.nodes && m != g.start :: d[m] == Transfer(g, d, m)
    requires n in g.nodes && x in d[n] && PathBetween(g, w, g.start, n)
    ensures x in w
    decreases |w|
  {
    if n != g.start && x != n {
      var v := w[..|w| - 1];
      var p := v[|v| - 1];
      assert Edge(g, w[|w| - 2], w[|w| - 1]);
      assert x in d[p];
      SubPath(g, w, 0, |w| - 2);
      assert w[0..|w| - 2 + 1] == v;
      PathStaysInside(g, w);
      SolutionIsOnPath(g, d, x, p, v);
    }
  }

  lemma QuietPassIsExact(g: Graph, d: DomMap)
    requires g.Valid() && Settling(g, d) && Pass(g, d) == d
    ensures Exact(g, d)
  {
    forall m | m in g.nodes && m != g.start
      ensures d[m] == Transfer(g, d, m)
    {
      QuietPassSolves(g, d, m);
    }
    forall n, x | n in g.nodes && x in d[n]
      ensures x in Dominators(g, n)
    {
      forall w | PathBetween(g, w, g.start, n)
        ensures x in w
      {
        SolutionIsOnPath(g, d, x, n, w);
      }
    }
  }

  /** An exact solution is left alone by every further pass. */
  lemma ExactIsQuiet(g: Graph, k: nat)
    requires g.Valid() && Exact(g, Iterate(g, k))
    ensures Iterate(g, k + 1) == Iterate(g, k)
  {
    IterateKeeps(g, k);
    IterateKeeps(g, k + 1);
    var d, e := Iterate(g, k), Iterate(g, k + 1);
    forall n | n in d
      ensures d[n] == e[n]
    {
      assert Dominators(g, n) <= e[n];
    }
  }

  // ---- What k passes find out

  /** `a` stands before `b` in the list, so a pass updates it first. */
  ghost predicate Before(g: Graph, a: Node, b: Node) {
    exists i, j | 0 <= i < j < |g.nodes| :: g.nodes[i] == a && g.nodes[j] == b
  }

  /** The passes that news take along a start path: one for its first edge and for every later
      edge that does not go forward in the list. */
  ghost function Cost(g: Graph, p: seq<Node>): nat {
    if |p| <= 1 then 0
    else Cost(g, p[..|p| - 1]) + if |p| > 2 && Before(g, p[|p| - 2], p[|p| - 1]) then 0 else 1
  }

  /** A start path to `n` without `x`: it shows that `x` does not dominate `n`. */
  ghost predicate Detour(g: Graph, p: seq<Node>, n: Node, x: Node) {
    PathBetween(g, p, g.start, n) && x !in p
  }

  ghost predicate HasCheapDetour(g: Graph, n: Node, x: Node, k: nat) {
    exists p :: Detour(g, p, n, x) && Cost(g, p) <= k
  }

  /** Whatever does not dominate a node is avoided by a start path of cost at most `k`. */
  ghost predicate CheapDetours(g: Graph, k: nat) {
    forall n, x, p | n in g.nodes && x in g.nodes && Detour(g, p, n, x) :: HasCheapDetour(g, n, x, k)
  }

  /** When the node at position `i` is updated in pass `k`, a node before it has its new set and
      any other its old one. */
  lemma SetsSeen(g: Graph, k: nat, i: nat, j: nat)
    requires g.Valid() && k > 0 && i < |g.nodes| && j < |g.nodes| && g.nodes[i] != g.start
    ensures Iterate(g, k).Keys == Iterate(g, k - 1).Keys == g.NodeSet()
    ensures var d, e, n, p := Iterate(g, k - 1), PassPrefix(g, Iterate(g, k - 1), i), g.nodes[i], g.nodes[j];
            && e.Keys == g.NodeSet() && Iterate(g, k)[n] == Transfer(g, e, n)
            && e[p] == if j < i then Iterate(g, k)[p] else d[p]
  {
    IterateKeeps(g, k - 1);
    hide Sound;
    var d := Iterate(g, k - 1);
    PassKeepsKeys(g, d, |g.nodes|);
    PassKeepsKeys(g, d, i);
    PassLeavesOthers(g, d, i, |g.nodes|);
    PassLeavesOthers(g, d, j, i);
    PassLeavesOthers(g, d, j, |g.nodes|);
  }

  lemma StartStays(g: Graph, k: nat)
    requires g.Valid()
    ensures g.start in Iterate(g, k) && Iterate(g, k)[g.start] == {g.start}
    ensures Iterate(g, k).Keys == g.NodeSet()
  {
    IterateKeeps(g, k);
  }

  /** The last edge of a path, and the path before it. */
  lemma LastEdge(g: Graph, p: seq<Node>, n: Node) returns (q: Node)
    requires g.Valid() && PathBetween(g, p, g.start, n) && |p| > 1
    ensures q == p[|p| - 2] && PathBetween(g, p[..|p| - 1], g.start, q) && Edge(g, q, n)
    ensures q in g.nodes && n in g.nodes
  {
    q := p[|p| - 2];
    assert Edge(g, p[|p| - 2], p[|p| - 2 + 1]);
    SubPath(g, p, 0, |p| - 2);
    assert p[0..|p| - 2 + 1] == p[..|p| - 1];
    PathStaysInside(g, p);
  }

  /** An update takes out what it sees to be missing at a predecessor. */
  lemma UpdateExcludes(g: Graph, k: nat, i: nat, j: nat, x: Node)
    requires g.Valid() && k > 0 && i < |g.nodes| && j < |g.nodes| && g.nodes[i] != g.start
    requires g.nodes[j] in g.Predecessors(g.nodes[i]) && x != g.nodes[i]
    requires g.nodes[j] in Iterate(g, k) && g.nodes[j] in Iterate(g, k - 1)
    requires x !in Iterate(g, k - 1)[g.nodes[j]] || (j < i && x !in Iterate(g, k)[g.nodes[j]])
    ensures g.nodes[i] in Iterate(g, k) && x !in Iterate(g, k)[g.nodes[i]]
  {
    SetsSeen(g, k, i, j);
    IterateShrinks(g, k, g.nodes[j]);
  }

  /** What an update takes out it saw to be missing at a predecessor. */
  lemma UpdateExcludedBecause(g: Graph, k: nat, i: nat, x: Node) returns (j: nat)
    requires g.Valid() && k > 0 && i < |g.nodes| && g.nodes[i] != g.start && x in g.nodes
    requires g.nodes[i] in Iterate(g, k) && x !in Iterate(g, k)[g.nodes[i]]
    ensures j < |g.nodes| && Edge(g, g.nodes[j], g.nodes[i]) && x != g.nodes[i]
    ensures var m := if j < i then k else k - 1; g.nodes[j] in Iterate(g, m) && x !in Iterate(g, m)[g.nodes[j]]
  {
    var n := g.nodes[i];
    SetsSeen(g, k, i, i);
    hide Iterate, PassPrefix;
    var e := PassPrefix(g, Iterate(g, k - 1), i);
    var q :| q in g.Predecessors(n) && x !in e[q];
    j :| 0 <= j < |g.nodes| && g.nodes[j] == q;
    SetsSeen(g, k, i, j);
    SelfKept(g, k, n);
  }

  lemma SelfKept(g: Graph, k: nat, n: Node)
    requires g.Valid() && n in g.nodes
    ensures n in Iterate(g, k) && n in Iterate(g, k)[n]
  {
    IterateKeeps(g, k);
  }

  /** After `k` passes a node's set lies within the nodes of every start path of cost at most `k`. */
  lemma {:induction false} CheapPathExcludes(g: Graph, k: nat, p: seq<Node>, n: Node, x: Node)
    requires g.Valid() && Detour(g, p, n, x) && Cost(g, p) <= k
    ensures n in Iterate(g, k) && x !in Iterate(g, k)[n]
    decreases |p|
  {
    StartStays(g, k);
    hide Iterate;
    if |p| > 1 && n != g.start {
      var q := LastEdge(g, p, n);
      var v := p[..|p| - 1];
      var i, j := PlacesOf(g, q, n);
      if |p| > 2 && Before(g, q, n) {
        CheapPathExcludes(g, k, v, q, x);
        CheapStepNeedsAPass(g, v);
      } else {
        CheapPathExcludes(g, k - 1, v, q, x);
      }
      StartStays(g, k - 1);
      UpdateExcludes(g, k, i, j, x);
    }
  }

  lemma PlacesOf(g: Graph, q: Node, n: Node) returns (i: nat, j: nat)
    requires g.Valid() && q in g.nodes && n in g.nodes
    ensures i < |g.nodes| && g.nodes[i] == n && j < |g.nodes| && g.nodes[j] == q
    ensures Before(g, q, n) <==> j < i
  {
    i :| 0 <= i < |g.nodes| && g.nodes[i] == n;
    j :| 0 <= j < |g.nodes| && g.nodes[j] == q;
  }

  lemma IterateShrinks(g: Graph, k: nat, q: Node)
    requires g.Valid() && k > 0 && q in g.nodes
    ensures q in Iterate(g, k) && q in Iterate(g, k - 1) && Iterate(g, k)[q] <= Iterate(g, k - 1)[q]
  {
    IterateKeeps(g, k - 1);
  }

  lemma CheapStepNeedsAPass(g: Graph, p: seq<Node>)
    requires |p| > 1
    ensures Cost(g, p) > 0
  {
    if |p| > 2 {
      CheapStepNeedsAPass(g, p[..|p| - 1]);
    }
  }

  /** What is not in a node's set after `k` passes is avoided by a start path of cost at most `k`. */
  lemma {:induction false} ExcludedHasCheapPath(g: Graph, k: nat, i: nat, x: Node) returns (p: seq<Node>)
    requires g.Valid() && i < |g.nodes| && x in g.nodes
    requires g.nodes[i] in Iterate(g, k) && x !in Iterate(g, k)[g.nodes[i]]
    ensures Detour(g, p, g.nodes[i], x) && Cost(g, p) <= k
    decreases k, i
  {
    var n := g.nodes[i];
    StartStays(g, k);
    if n == g.start {
      p := [g.start];
    } else {
      assert k > 0;
      hide Iterate;
      var j := UpdateExcludedBecause(g, k, i, x);
      var v := ExcludedHasCheapPath(g, if j < i then k else k - 1, j, x);
      ExtendPath(g, v, g.start, g.nodes[j], n);
      p := v + [n];
      assert p[..|p| - 1] == v;
      assert j < i ==> Before(g, g.nodes[j], n);
    }
  }

  /** Exactly what `k` passes find out: a node leaves another's set if and only if a start path of
      cost at most `k` avoids it. */
  lemma PassesFindCheapDetours(g: Graph, k: nat, n: Node, x: Node)
    requires g.Valid() && n in g.nodes && x in g.nodes
    ensures n in Iterate(g, k)
    ensures x !in Iterate(g, k)[n] <==> HasCheapDetour(g, n, x, k)
  {
    StartStays(g, k);
    if x !in Iterate(g, k)[n] {
      var i :| 0 <= i < |g.nodes| && g.nodes[i] == n;
      var p := ExcludedHasCheapPath(g, k, i, x);
    }
    if p :| Detour(g, p, n, x) && Cost(g, p) <= k {
      CheapPathExcludes(g, k, p, n, x);
    }
  }

  lemma DetourIsProof(g: Graph, n: Node, x: Node)
    ensures !Dominates(g, x, n) <==> exists p :: Detour(g, p, n, x)
  {
    if !Dominates(g, x, n) {
      var p :| PathBetween(g, p, g.start, n) && x !in p;
      assert Detour(g, p, n, x);
    }
  }

  /** `k` passes are exact if and only if every detour can be had at cost `k`. */
  lemma ExactIffCheapDetours(g: Graph, k: nat)
    requires g.Valid()
    ensures Exact(g, Iterate(g, k)) <==> CheapDetours(g, k)
  {
    StartStays(g, k);
    SetsInside(g, k);
    hide Iterate, Dominates;
    forall n, x | n in g.nodes && x in g.nodes
      ensures x !in Iterate(g, k)[n] <==> HasCheapDetour(g, n, x, k)
      ensures !Dominates(g, x, n) <==> exists p :: Detour(g, p, n, x)
    {
      PassesFindCheapDetours(g, k, n, x);
      DetourIsProof(g, n, x);
    }
    hide HasCheapDetour, Detour;
    if Exact(g, Iterate(g, k)) {
      forall n, x, p | n in g.nodes && x in g.nodes && Detour(g, p, n, x)
        ensures HasCheapDetour(g, n, x, k)
      {
        assert x !in Dominators(g, n);
      }
    }
    if CheapDetours(g, k) {
      forall n | n in g.nodes
        ensures Iterate(g, k)[n] == Dominators(g, n)
      {
        assert forall x | x in g.nodes :: HasCheapDetour(g, n, x, k) <==> !Dominates(g, x, n) by {
          forall x | x in g.nodes ensures HasCheapDetour(g, n, x, k) <==> !Dominates(g, x, n) {
            CheapIsDetour(g, n, x, k);
          }
        }
      }
    }
  }

  lemma CheapIsDetour(g: Graph, n: Node, x: Node, k: nat)
    ensures HasCheapDetour(g, n, x, k) ==> exists p :: Detour(g, p, n, x)
  {
  }

  lemma SetsInside(g: Graph, k: nat)
    requires g.Valid()
    ensures forall n | n in Iterate(g, k) :: Iterate(g, k)[n] <= g.NodeSet()
  {
    IterateKeeps(g, k);
  }

  // ---- How many passes are enough

  /** A pass more never hurts. */
  lemma MorePasses(g: Graph, k: nat, m: nat)
    requires CheapDetours(g, k) && k <= m
    ensures CheapDetours(g, m)
  {
    forall n, x, p | n in g.nodes && x in g.nodes && Detour(g, p, n, x)
      ensures HasCheapDetour(g, n, x, m)
    {
      assert HasCheapDetour(g, n, x, k);
    }
  }

  /** How the analysis may stop within `cap` passes: after one without change, or out of passes. */
  lemma StoppedExact(g: Graph, k: nat, cap: nat)
    requires g.Valid() && k <= cap
    requires (k > 0 && Iterate(g, k) == Iterate(g, k - 1)) || k == cap
    ensures Exact(g, Iterate(g, k)) <==> CheapDetours(g, cap)
    ensures k > 0 && Iterate(g, k) == Iterate(g, k - 1) ==> Exact(g, Iterate(g, k))
  {
    ExactIffCheapDetours(g, k);
    if k > 0 && Iterate(g, k) == Iterate(g, k - 1) {
      IterateKeeps(g, k - 1);
      QuietPassIsExact(g, Iterate(g, k - 1));
      MorePasses(g, k, cap);
    }
  }

  lemma {:induction false} CostBelowLength(g: Graph, p: seq<Node>)
    requires |p| > 0
    ensures Cost(g, p) < |p|
  {
    if |p| > 1 {
      CostBelowLength(g, p[..|p| - 1]);
    }
  }

  /** After `k` passes a node's set is within the nodes of every start path of at most `k` edges. */
  lemma PassesBoundPaths(g: Graph, k: nat, n: Node, w: seq<Node>)
    requires g.Valid() && PathBetween(g, w, g.start, n) && |w| <= k + 1
    ensures n in Iterate(g, k) && forall x | x in Iterate(g, k)[n] :: x in w
  {
    StartStays(g, k);
    PathStaysInside(g, w);
    CostBelowLength(g, w);
    forall x | x in Iterate(g, k)[n]
      ensures x in w
    {
      if x !in w {
        CheapPathExcludes(g, k, w, n, x);
      }
    }
  }

  /** On at most `k + 2` nodes every detour is cheap: a repetition-free one leaves out a node. */
  lemma SmallIsCheap(g: Graph, k: nat)
    requires g.Valid() && |g.nodes| <= k + 2
    ensures CheapDetours(g, k)
  {
    ListedSize(g.nodes);
    assert g.NodeSet() == set v | v in g.nodes;
    forall n, x, p | n in g.nodes && x in g.nodes && Detour(g, p, n, x)
      ensures HasCheapDetour(g, n, x, k)
    {
      var q := SimplePath(g, p, g.start, n);
      PathStaysInside(g, q);
      CostBelowLength(g, q);
      if |q| > k + 1 {
        DistinctFits(q, g.NodeSet());
      }
      assert Detour(g, q, n, x);
    }
  }

  /** `k` passes are exact on every graph of at most `k + 2` nodes. */
  lemma EnoughPasses(g: Graph, k: nat)
    requires g.Valid() && |g.nodes| <= k + 2
    ensures Exact(g, Iterate(g, k))
  {
    SmallIsCheap(g, k);
    ExactIffCheapDetours(g, k);
  }

  /** Without a cap the passes stop: the sets are settled from pass `|nodes| - 2` on. */
  lemma PassesSettle(g: Graph, k: nat)
    requires g.Valid() && |g.nodes| <= k + 2
    ensures Iterate(g, k + 1) == Iterate(g, k)
  {
    EnoughPasses(g, k);
    ExactIsQuiet(g, k);
  }

  // ---- One node more and the passes can fall short

  /** A chain 0 -> k + 2 -> k + 1 -> ... -> 2 with a further successor 1 of the start. The start is
      listed first, as in every graph that the extractor builds, and the chain goes against the list. */
  function ReversedChain(k: nat): Graph {
    var listed: seq<Node> := seq(k + 3, i => i);
    Graph(listed, 0, map n | n in listed :: if n == 0 then [] else if n == 1 || n == k + 2 then [0] else [n + 1])
  }

  ghost predicate IsReversedChain(g: Graph, k: nat) {
    && g.Valid() && g.start == 0 && |g.nodes| == k + 3
    && (forall n: Node :: n <= k + 2 <==> n in g.nodes)
    && (forall i | 0 <= i < k + 3 :: g.nodes[i] == i)
    && g.Predecessors(0) == [] && g.Predecessors(k + 2) == [0]
    && (forall n | 1 < n < k + 2 :: g.Predecessors(n) == [n + 1])
  }

  lemma ReversedChainIsOne(k: nat)
    ensures IsReversedChain(ReversedChain(k), k)
    ensures ReversedChain(k).Predecessors(1) == [0]
  {
    var g := ReversedChain(k);
    forall n: Node | n <= k + 2
      ensures n in g.nodes
    {
      assert g.nodes[n] == n;
    }
  }

  /** Every edge of the chain goes against the list, except the first, which costs a pass as well. */
  lemma {:induction false} ChainIsDear(g: Graph, k: nat, w: seq<Node>, j: nat)
    requires IsReversedChain(g, k) && PathBetween(g, w, g.start, j) && 2 <= j <= k + 2
    ensures Cost(g, w) >= k + 3 - j
    decreases |w|
  {
    var q := LastEdge(g, w, j);
    if j < k + 2 {
      ChainIsDear(g, k, w[..|w| - 1], j + 1);
    }
  }

  /** The bound is sharp: for every `k`, some graph of `k + 3` nodes, with the start first, needs more
      than `k` passes. */
  lemma TooFewPasses(k: nat)
    ensures var g := ReversedChain(k); g.Valid() && |g.nodes| == k + 3 && g.nodes[0] == g.start
    ensures !Exact(ReversedChain(k), Iterate(ReversedChain(k), k))
  {
    var g := ReversedChain(k);
    ReversedChainIsOne(k);
    var w := ChainPath(g, k, 2);
    if CheapDetours(g, k) {
      assert HasCheapDetour(g, 2, 1, k);
      var p :| Detour(g, p, 2, 1) && Cost(g, p) <= k;
      ChainIsDear(g, k, p, 2);
      assert false;
    }
    ExactIffCheapDetours(g, k);
  }

  lemma {:induction false} ChainPath(g: Graph, k: nat, j: nat) returns (w: seq<Node>)
    requires IsReversedChain(g, k) && 2 <= j <= k + 2
    ensures Detour(g, w, j, 1)
    decreases k + 2 - j
  {
    if j == k + 2 {
      w := [0, j];
    } else {
      var v := ChainPath(g, k, j + 1);
      ExtendPath(g, v, g.start, j + 1, j);
      w := v + [j];
    }
  }
}
