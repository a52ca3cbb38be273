/** `LoopComputer`: one natural loop for every target of a back edge. */
module LoopAnalysis {
  import opened Sequences
  import opened FlowGraph
  import opened DominatorSpec
  import opened DominatorSets
  import opened LoopSpec
  import DominatorAnalysis

  /** A cfglib loop, with its head and its loop-bound attribute. */
  class Loop {
    var nodes: set<Node>
    var backedges: seq<(Node, Node)>
    const head: Node
    var maxiter: Bound

    constructor (h: Node)
      ensures head == h && nodes == {} && backedges == [] && maxiter == Unbounded
    {
      head := h;
      nodes, backedges, maxiter := {}, [], Unbounded;
    }

    function FindInLoop(n: Node): bool
      reads this
    {
      n in nodes
    }

    method AddNode(n: Node)
      modifies `nodes
      ensures nodes == old(nodes) + {n}
    {
      nodes := nodes + {n};
    }

    method AddBackedge(e: (Node, Node))
      modifies `backedges
      ensures backedges == old(backedges) + [e]
    {
      backedges := backedges + [e];
    }
  }

  // ---- The backward closure

  /** Everything new in `after` reaches `current` outside `before`. */
  ghost predicate AddedReach(g: Graph, before: set<Node>, after: set<Node>, current: Node) {
    forall x | x in after - before :: ReachesAvoiding(g, x, current, before)
  }

  /** Everything new in `after`, except perhaps `pending`, has all its predecessors in `after`. */
  ghost predicate AddedClosed(g: Graph, before: set<Node>, after: set<Node>, pending: set<Node>) {
    forall x, p | x in after - before - pending && p in g.Predecessors(x) :: p in after
  }

  /** What the recursion on a predecessor of `current` adds also reaches `current`. */
  lemma AddedThroughPredecessor(g: Graph, before: set<Node>, mid: set<Node>, after: set<Node>, pred: Node, current: Node)
    requires g.Valid() && before <= mid <= after && current !in before && Edge(g, pred, current)
    requires AddedReach(g, before, mid, current) && AddedReach(g, mid, after, pred)
    ensures AddedReach(g, before, after, current)
  {
    forall x | x in after - before
      ensures ReachesAvoiding(g, x, current, before)
    {
      if x !in mid {
        assert ReachesAvoiding(g, x, pred, mid);
        assert ReachesAvoiding(g, x, pred, before);
        ReachesStep(g, x, pred, current, before);
      }
    }
  }

  /** A set closed under predecessors except at `h` holds every node with a path to it that avoids `h`. */
  lemma {:induction false} ClosedHolds(g: Graph, all: set<Node>, h: Node, p: seq<Node>, x: Node, s: Node)
    requires g.Valid() && AddedClosed(g, {h}, all, {}) && s in all
    requires PathBetween(g, p, x, s) && h !in p
    ensures x in all
    decreases |p|
  {
    if |p| > 1 {
      assert Edge(g, p[|p| - 2], p[|p| - 1]);
      SubPath(g, p, 0, |p| - 2);
      var q := p[0..|p| - 2 + 1];
      assert s in p && forall v | v in q :: v in p;
      ClosedHolds(g, all, h, q, x, p[|p| - 2]);
    }
  }

  /** The closure of the header and its back-edge sources is the natural loop. */
  lemma ClosureIsNaturalLoop(g: Graph, h: Node, sources: set<Node>, all: set<Node>)
    requires g.Valid() && h in all && sources <= all && all <= g.NodeSet()
    requires AddedClosed(g, {h}, all, {})
    requires forall x | x in all - {h} :: exists s | s in sources :: ReachesAvoiding(g, x, s, {h})
    ensures all == NaturalLoop(g, h, sources)
  {
    forall x | x in all
      ensures x in NaturalLoop(g, h, sources)
    {
      assert x == h || x in all - {h};
    }
    forall x | x in NaturalLoop(g, h, sources)
      ensures x in all
    {
      if x != h {
        var s :| s in sources && ReachesAvoiding(g, x, s, {h});
        var p :| PathBetween(g, p, x, s) && forall v | v in p :: v !in {h};
        ClosedHolds(g, all, h, p, x, s);
      }
    }
  }

  function Heads(loops: seq<Loop>): seq<Node> {
    seq(|loops|, i requires 0 <= i < |loops| => loops[i].head)
  }

  class LoopComputer {
    const graph: Graph
    /** The DOMINATOR attributes of the nodes. */
    const dominators: map<Node, seq<Node>>
    /** The loops of the graph, in the order of their creation. */
    var loops: seq<Loop>

    constructor (g: Graph, d: map<Node, seq<Node>>)
      ensures graph == g && dominators == d && loops == []
    {
      graph, dominators, loops := g, d, [];
    }

    ghost function Sets(): DomMap {
      DominatorAnalysis.SetsOf(dominators)
    }

    /** Adds `current` and, recursively, its predecessors, stopping at nodes already in the loop. */
    method AddPredecessors(loop: Loop, current: Node)
      requires graph.Valid() && current in graph.nodes && loop.nodes <= graph.NodeSet()
      modifies loop`nodes
      ensures old(loop.nodes) + {current} <= loop.nodes <= graph.NodeSet()
      ensures AddedReach(graph, old(loop.nodes), loop.nodes, current)
      ensures AddedClosed(graph, old(loop.nodes), loop.nodes, {})
      decreases graph.NodeSet() - loop.nodes
    {
      if loop.FindInLoop(current) {
        return;
      }
      ghost var before := loop.nodes;
      loop.AddNode(current);
      assert PathBetween(graph, [current], current, current);
      assert ReachesAvoiding(graph, current, current, before);
      var predecessors := graph.Predecessors(current);
      for i := 0 to |predecessors|
        invariant before + {current} <= loop.nodes <= graph.NodeSet()
        invariant AddedReach(graph, before, loop.nodes, current)
        invariant AddedClosed(graph, before, loop.nodes, {current})
        invariant forall p | p in predecessors[..i] :: p in loop.nodes
      {
        ghost var mid := loop.nodes;
        AddPredecessors(loop, predecessors[i]);
        assert Edge(graph, predecessors[i], current);
        AddedThroughPredecessor(graph, before, mid, loop.nodes, predecessors[i], current);
        assert predecessors[..i + 1] == predecessors[..i] + [predecessors[i]];
      }
      assert predecessors[..|predecessors|] == predecessors;
    }

    /** The predecessors of `node` that it dominates, in order. */
    method BackEdgeSources(node: Node) returns (sources: seq<Node>)
      ensures Elements(sources) == BackSources(graph, Sets(), node)
    {
      sources := [];
      var predecessors := graph.Predecessors(node);
      for i := 0 to |predecessors|
        invariant forall s :: s in sources <==>
            s in predecessors[..i] && s in Sets() && node in Sets()[s]
      {
        var pred := predecessors[i];
        if pred in dominators {
          var dd := new DominatorData(dominators[pred]);
          var found := dd.FindBB(node);
          if found {
            sources := sources + [pred];
          }
        }
        assert predecessors[..i + 1] == predecessors[..i] + [pred];
      }
      assert predecessors[..|predecessors|] == predecessors;
    }

    /** Builds the loop of header `node` from its back-edge sources. */
    method BuildLoop(node: Node, sources: seq<Node>) returns (loop: Loop)
      requires graph.Valid() && node in graph.nodes && forall s | s in sources :: s in graph.nodes
      ensures fresh(loop) && loop.head == node && loop.maxiter == Unbounded
      ensures loop.nodes == NaturalLoop(graph, node, Elements(sources))
      ensures loop.backedges == seq(|sources|, i requires 0 <= i < |sources| => (sources[i], node))
    {
      loop := new Loop(node);
      loop.AddNode(node);
      for j := 0 to |sources|
        invariant node in loop.nodes && loop.nodes <= graph.NodeSet() && loop.maxiter == Unbounded
        invariant forall s | s in sources[..j] :: s in loop.nodes
        invariant AddedClosed(graph, {node}, loop.nodes, {})
        invariant forall x | x in loop.nodes - {node} ::
            exists s | s in sources[..j] :: ReachesAvoiding(graph, x, s, {node})
        invariant loop.backedges == seq(j, i requires 0 <= i < j <= |sources| => (sources[i], node))
      {
        var pred := sources[j];
        loop.AddBackedge((pred, node));
        ghost var before := loop.nodes;
        AddPredecessors(loop, pred);
        assert sources[..j + 1] == sources[..j] + [pred];
        forall x | x in loop.nodes - {node}
          ensures exists s | s in sources[..j + 1] :: ReachesAvoiding(graph, x, s, {node})
        {
          if x in before {
            assert x in before - {node};
            var s :| s in sources[..j] && ReachesAvoiding(graph, x, s, {node});
            assert s in sources[..j + 1];
          } else {
            assert ReachesAvoiding(graph, x, pred, before);
            assert ReachesAvoiding(graph, x, pred, {node});
          }
        }
      }
      assert sources[..|sources|] == sources;
      ClosureIsNaturalLoop(graph, node, Elements(sources), loop.nodes);
    }

    /** `loop` is the natural loop of its head, with a back edge from each source. */
    ghost predicate IsLoopOfHead(loop: Loop)
      reads loop
    {
      && loop.head in graph.nodes
      && loop.nodes == LoopOf(graph, Sets(), loop.head)
      && (forall e :: e in loop.backedges <==>
            e.1 == loop.head && e.0 in BackSources(graph, Sets(), loop.head))
    }

    /** Creates the loop of header `node` if a back edge leads to it. */
    method LoopOfNode(node: Node)
      requires graph.Valid() && node in graph.nodes
      modifies this
      ensures BackSources(graph, Sets(), node) == {} ==> loops == old(loops)
      ensures BackSources(graph, Sets(), node) != {} ==>
                && |loops| == |old(loops)| + 1 && loops[..|old(loops)|] == old(loops)
                && var l := loops[|old(loops)|];
                   fresh(l) && l.head == node && l.maxiter == Unbounded && IsLoopOfHead(l)
    {
      var sources := BackEdgeSources(node);
      EmptyElements(sources);
      if sources != [] {
        assert forall s | s in sources :: s in Elements(sources);
        var loop := BuildLoop(node, sources);
        assert forall e | e in loop.backedges :: exists i | 0 <= i < |sources| :: e == (sources[i], node);
        forall s | s in sources
          ensures (s, node) in loop.backedges
        {
          var i :| 0 <= i < |sources| && sources[i] == s;
          assert loop.backedges[i] == (s, node);
        }
        loops := loops + [loop];
      }
    }

    /** Creates the loops of the graph: one for each node with a back edge, in node order. */
    method ComputeLoop()
      requires graph.Valid()
      modifies this
      ensures forall l | l in loops :: fresh(l) && l.maxiter == Unbounded && IsLoopOfHead(l)
      ensures NoDuplicates(Heads(loops))
      ensures forall h | h in graph.nodes :: h in Heads(loops) <==> BackSources(graph, Sets(), h) != {}
    {
      loops := [];
      var nodes := graph.nodes;
      for i := 0 to |nodes|
        invariant forall l | l in loops :: fresh(l) && l.maxiter == Unbounded && IsLoopOfHead(l)
        invariant NoDuplicates(Heads(loops))
        invariant forall h | h in Heads(loops) :: h in nodes[..i]
        invariant forall h | h in nodes[..i] :: h in Heads(loops) <==> BackSources(graph, Sets(), h) != {}
      {
        ghost var before := loops;
        LoopOfNode(nodes[i]);
        assert nodes[..i + 1] == nodes[..i] + [nodes[i]];
        if loops != before {
          assert loops == before + [loops[|before|]];
          assert Heads(loops) == Heads(before) + [nodes[i]];
        }
      }
      assert nodes[..|nodes|] == nodes;
    }
  }
}
