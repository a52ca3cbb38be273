/** The dominator sets kept on nodes: a vector used as a set. */
module DominatorSets {
  import opened Sequences
  import opened FlowGraph

  class DominatorData {
    var arrayNodes: seq<Node>

    constructor (nodes: seq<Node>)
      ensures arrayNodes == nodes
    {
      arrayNodes := nodes;
    }

    method FindBB(bb: Node) returns (found: bool)
      ensures found <==> bb in arrayNodes
    {
      for i := 0 to |arrayNodes|
        invariant bb !in arrayNodes[..i]
      {
        if arrayNodes[i] == bb {
          return true;
        }
      }
      assert arrayNodes[..|arrayNodes|] == arrayNodes;
      return false;
    }

    method AddBB(bb: Node)
      modifies this
      ensures arrayNodes == old(arrayNodes) + [bb]
    {
      arrayNodes := arrayNodes + [bb];
    }

    /** Replaces the vector by the elements of `s`, each once, in the set's own order. */
    method SetNewListBB(s: set<Node>)
      modifies this
      ensures NoDuplicates(arrayNodes) && Elements(arrayNodes) == s
    {
      arrayNodes := [];
      var rest := s;
      while rest != {}
        invariant rest <= s && NoDuplicates(arrayNodes)
        invariant Elements(arrayNodes) == s - rest
        decreases rest
      {
        var bb :| bb in rest;
        ElementsAppend(arrayNodes, bb);
        AddBB(bb);
        rest := rest - {bb};
      }
    }
  }

  /** Copies a vector into a set. */
  method ToSet(v: seq<Node>) returns (s: set<Node>)
    ensures s == Elements(v)
  {
    s := {};
    for i := 0 to |v|
      invariant s == Elements(v[..i])
    {
      ElementsAppend(v[..i], v[i]);
      assert v[..i + 1] == v[..i] + [v[i]];
      s := s + {v[i]};
    }
    assert v[..|v|] == v;
  }

  /** The comparison of a vector with a set: equal sizes and one inclusion. */
  ghost predicate SameSizeInside(v: seq<Node>, s: set<Node>) {
    |v| == |s| && forall x | x in v :: x in s
  }

  /** On a repetition-free vector the comparison is set equality. */
  lemma SameSizeSameSet(v: seq<Node>, s: set<Node>)
    requires NoDuplicates(v)
    ensures SameSizeInside(v, s) <==> Elements(v) == s
  {
    ListedSize(v);
    if SameSizeInside(v, s) {
      DistinctFits(v, s);
    }
  }

  /** And on no other: with a repetition it misjudges the vector's own set. */
  lemma SameSizeNeedsDistinct(v: seq<Node>)
    ensures NoDuplicates(v) <==> forall s: set<Node> :: SameSizeInside(v, s) <==> Elements(v) == s
  {
    if NoDuplicates(v) {
      forall s: set<Node>
        ensures SameSizeInside(v, s) <==> Elements(v) == s
      {
        SameSizeSameSet(v, s);
      }
    }
    SizeShowsDistinct(v);
    assert SameSizeInside(v, Elements(v)) ==> NoDuplicates(v);
  }

  /** It can also accept a set that is too large. */
  lemma RepetitionAcceptsMore()
    ensures var v: seq<Node>, s: set<Node> := [1, 1], {1, 2};
            SameSizeInside(v, s) && Elements(v) != s
  {
    assert 2 !in Elements([1, 1]);
  }
}

/** `DominatorComputer`: dominator sets as the attributes of a graph's nodes. */
module DominatorAnalysis {
  import opened Sequences
  import opened FlowGraph
  import opened DominatorSpec
  import opened DominatorSets

  const MAX_PASSES: nat := 20

  ghost function SetsOf(attribute: map<Node, seq<Node>>): DomMap {
    map n | n in attribute :: Elements(attribute[n])
  }

  lemma InitialAttributes(g: Graph, full: map<Node, seq<Node>>)
    requires g.Valid() && full.Keys == g.NodeSet()
    requires forall n | n in full :: Elements(full[n]) == g.NodeSet()
    ensures SetsOf(full[g.start := [g.start]]) == InitialSets(g)
  {
    assert Elements([g.start]) == {g.start};
  }

  /** A set cut down by the sets of the first `k` predecessors. */
  ghost function Cut(full: set<Node>, d: DomMap, predecessors: seq<Node>, k: nat): set<Node>
    requires k <= |predecessors| && forall p | p in predecessors :: p in d
  {
    if k == 0 then full else Cut(full, d, predecessors, k - 1) * d[predecessors[k - 1]]
  }

  lemma {:induction false} InCut(full: set<Node>, d: DomMap, predecessors: seq<Node>, k: nat, x: Node)
    requires k <= |predecessors| && forall p | p in predecessors :: p in d
    ensures x in Cut(full, d, predecessors, k) <==> x in full && forall i | 0 <= i < k :: x in d[predecessors[i]]
  {
    if k > 0 {
      InCut(full, d, predecessors, k - 1, x);
    }
  }

  lemma CutIsTransfer(g: Graph, d: DomMap, n: Node, full: set<Node>)
    requires n in g.nodes && full == Elements(g.nodes)
    requires forall p | p in g.Predecessors(n) :: p in d
    ensures Cut(full, d, g.Predecessors(n), |g.Predecessors(n)|) + {n} == Transfer(g, d, n)
  {
    forall x ensures x in Cut(full, d, g.Predecessors(n), |g.Predecessors(n)|) + {n} <==> x in Transfer(g, d, n) {
      InCut(full, d, g.Predecessors(n), |g.Predecessors(n)|, x);
    }
  }

  class DominatorComputer {
    const graph: Graph
    /** The DOMINATOR attribute: each node owns a copy of a `DominatorData` vector. */
    var attribute: map<Node, seq<Node>>

    constructor (g: Graph)
      ensures graph == g
    {
      graph := g;
      attribute := map[];
    }

    ghost predicate Valid()
      reads this
    {
      && graph.Valid()
      && attribute.Keys == graph.NodeSet()
      && forall n | n in attribute :: NoDuplicates(attribute[n])
    }

    ghost function Sets(): DomMap
      reads this
    {
      SetsOf(attribute)
    }

    /** Does the attribute of `bb` hold the same nodes as `tempSet`? */
    method EqualDominator(bb: Node, tempSet: set<Node>) returns (same: bool)
      requires bb in attribute && NoDuplicates(attribute[bb])
      ensures same <==> Elements(attribute[bb]) == tempSet
    {
      var dd := new DominatorData(attribute[bb]);
      SameSizeSameSet(dd.arrayNodes, tempSet);
      if dd.arrayNodes == [] && tempSet == {} {
        return true;
      }
      if |dd.arrayNodes| != |tempSet| {
        return false;
      }
      for i := 0 to |dd.arrayNodes|
        invariant forall x | x in dd.arrayNodes[..i] :: x in tempSet
      {
        var find := false;
        var rest := tempSet;
        while rest != {}
          invariant rest <= tempSet
          invariant find <==> dd.arrayNodes[i] in tempSet - rest
          decreases rest
        {
          var y :| y in rest;
          if dd.arrayNodes[i] == y {
            find := true;
          }
          rest := rest - {y};
        }
        if !find {
          return false;
        }
      }
      assert dd.arrayNodes[..|dd.arrayNodes|] == dd.arrayNodes;
      return true;
    }

    /** Each node starts with the full set. */
    method FillAll()
      requires graph.Valid()
      modifies this
      ensures Valid() && forall n | n in attribute :: Elements(attribute[n]) == graph.NodeSet()
    {
      var allNodesSet := ToSet(graph.nodes);
      attribute := map[];
      for i := 0 to |graph.nodes|
        invariant attribute.Keys == Elements(graph.nodes[..i])
        invariant forall n | n in attribute ::
            NoDuplicates(attribute[n]) && Elements(attribute[n]) == allNodesSet
      {
        var dd := new DominatorData([]);
        dd.SetNewListBB(allNodesSet);
        ElementsAppend(graph.nodes[..i], graph.nodes[i]);
        assert graph.nodes[..i + 1] == graph.nodes[..i] + [graph.nodes[i]];
        attribute := attribute[graph.nodes[i] := dd.arrayNodes];
      }
      assert graph.nodes[..|graph.nodes|] == graph.nodes;
    }

    /** The full set everywhere, except that the start node is its own only dominator. */
    method Initialise()
      requires graph.Valid()
      modifies this
      ensures Valid() && Sets() == InitialSets(graph)
    {
      hide InitialSets;
      FillAll();
      ghost var full := attribute;
      InitialAttributes(graph, full);
      var dd := new DominatorData(attribute[graph.start]);
      dd.SetNewListBB({});
      EmptyElements(dd.arrayNodes);
      dd.AddBB(graph.start);
      assert dd.arrayNodes == [graph.start];
      attribute := attribute[graph.start := dd.arrayNodes];
      assert attribute == full[graph.start := [graph.start]];
    }

    /** The full set intersected with every predecessor's set, plus the node itself. */
    method Intersect(bb: Node) returns (tempSet: set<Node>)
      requires Valid() && bb in graph.nodes
      ensures tempSet == Transfer(graph, Sets(), bb)
    {
      ghost var d := Sets();
      tempSet := ToSet(graph.nodes);
      ghost var full := tempSet;
      var predecessors := graph.Predecessors(bb);
      for i := 0 to |predecessors|
        invariant tempSet == Cut(full, d, predecessors, i)
      {
        var dompred := new DominatorData(attribute[predecessors[i]]);
        var listDom := ToSet(dompred.arrayNodes);
        tempSet := tempSet * listDom;
      }
      tempSet := tempSet + {bb};
      CutIsTransfer(graph, d, bb, full);
    }

    /** Recomputes the set of `bb` and replaces it if it differs. */
    method Revise(bb: Node) returns (changed: bool)
      requires Valid() && bb in graph.nodes && bb != graph.start
      modifies this
      ensures Valid() && Sets() == UpdateNode(graph, old(Sets()), bb)
      ensures changed <==> Sets()[bb] != old(Sets())[bb]
    {
      var tempSet := Intersect(bb);
      var same := EqualDominator(bb, tempSet);
      changed := !same;
      if changed {
        var dd := new DominatorData(attribute[bb]);
        dd.SetNewListBB(tempSet);
        attribute := attribute[bb := dd.arrayNodes];
      }
      assert Sets() == old(Sets())[bb := tempSet];
    }

    /** One pass over all nodes; `change` tells whether any set was replaced. */
    method OnePass() returns (change: bool)
      requires Valid() && Settling(graph, Sets())
      modifies this
      ensures Valid() && Sets() == Pass(graph, old(Sets()))
      ensures change <==> Sets() != old(Sets())
    {
      hide Descending, Sound, Transfer;
      change := false;
      ghost var before := Sets();
      for i := 0 to |graph.nodes|
        invariant Valid() && Sets() == PassPrefix(graph, before, i)
        invariant change <==> Sets() != before
      {
        PassStepChanges(graph, before, i);
        if graph.nodes[i] != graph.start {
          var changed := Revise(graph.nodes[i]);
          if changed {
            change := true;
          }
        }
      }
    }

    /** The analysis proper. `passes` and `change` are the locals at its end. */
    method ComputeDominator() returns (ghost passes: nat, ghost unsettled: bool)
      requires graph.Valid()
      modifies this
      ensures Valid() && passes <= MAX_PASSES && Sets() == Iterate(graph, passes)
      ensures Settling(graph, Sets())
      ensures unsettled ==> passes == MAX_PASSES
      ensures !unsettled ==> Exact(graph, Sets())
      ensures Exact(graph, Sets()) <==> CheapDetours(graph, MAX_PASSES)
      ensures |graph.nodes| <= 22 ==> Exact(graph, Sets())
    {
      Initialise();
      var change := true;
      var steps := MAX_PASSES;
      passes := 0;
      while change && steps > 0
        invariant 0 <= steps <= MAX_PASSES && passes == MAX_PASSES - steps
        invariant Valid() && Sets() == Iterate(graph, passes)
        invariant !change ==> passes > 0 && Iterate(graph, passes) == Iterate(graph, passes - 1)
      {
        IterateKeeps(graph, passes);
        change := OnePass();
        steps := steps - 1;
        passes := passes + 1;
      }
      unsettled := change;
      IterateKeeps(graph, passes);
      StoppedExact(graph, passes, MAX_PASSES);
      if |graph.nodes| <= 22 {
        SmallIsCheap(graph, MAX_PASSES);
      }
    }
  }
}
