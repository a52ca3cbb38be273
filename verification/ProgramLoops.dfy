/** The loops of an extracted graph, in terms of the program's runs. */
module ProgramLoops {
  import opened ExtractionSpec
  import opened FlowGraph
  import opened DominatorSpec
  import opened LoopSpec
  import opened ProgramSimulation
  import opened ProgramRuns

  /** Every run that comes to an instruction of a loop has executed an instruction of its header block. */
  lemma RunsEnterAtHeader(g: Graph, isa: Isa, ins: seq<Instr>, d: DomMap, h: nat, m: nat, i: nat, r: seq<nat>)
    requires WellPlaced(isa, ins) && Extracts(g, isa, ins) && Exact(g, d) && h in g.nodes
    requires m in LoopOf(g, d, h) && InBlock(isa, ins, i, m) && Run(isa, ins, r, i)
    ensures Visits(isa, ins, r, h)
  {
    assert g.Valid();
    hide WellPlaced, Exact, Extracts, LoopOf, Run, Visits, InBlock, Dominates;
    HeaderDominates(g, d, h, m);
    DominatorsAreExecuted(g, isa, ins, r, i, h, m);
  }

  /** Of two loops whose common block some run executes, one lies properly inside the other. */
  lemma ExecutedLoopsNest(g: Graph, isa: Isa, ins: seq<Instr>, d: DomMap, a: nat, b: nat, m: nat, i: nat, r: seq<nat>)
    requires WellPlaced(isa, ins) && Extracts(g, isa, ins) && Exact(g, d) && a in g.nodes && b in g.nodes && a != b
    requires m in LoopOf(g, d, a) && m in LoopOf(g, d, b) && InBlock(isa, ins, i, m) && Run(isa, ins, r, i)
    ensures LoopOf(g, d, a) < LoopOf(g, d, b) || LoopOf(g, d, b) < LoopOf(g, d, a)
  {
    assert g.Valid();
    hide WellPlaced, Exact, Extracts, LoopOf, Run, InBlock, Reachable;
    ExecutedIsReachable(g, isa, ins, r, i, m);
    LoopsNest(g, d, a, b, m);
  }
}

/** From the instructions of a function to the bounds of its loops. */
module ProgramBounds {
  import opened ExtractionSpec
  import opened Cleaning
  import opened EntryLists
  import opened CfgExtraction
  import opened FlowGraph
  import opened DominatorSpec
  import opened DominatorAnalysis
  import opened LoopSpec
  import opened LoopAnalysis
  import opened InnermostSpec
  import opened Annotations
  import opened ProgramSimulation
  import opened ProgramRuns
  import opened ProgramLoops

  /** Every edge between nodes starts and ends at blocks. */
  lemma EdgesStayInside(isa: Isa, ins: seq<Instr>, a: nat, b: nat)
    requires Ascending(ins) && |ins| > 0 && (NodeRef.Node(a), NodeRef.Node(b)) in ProgramEdges(isa, ins)
    ensures a < BlockCount(isa, ins) && b < BlockCount(isa, ins)
  {
    var leaders, succs := Leaders(isa, ins), Successors(isa, ins);
    var e := (NodeRef.Node(a), NodeRef.Node(b));
    EdgesAre(isa, ins, e);
    var i :| 0 <= i < |ins| && (FallEdge(ins, leaders, e, i) || SuccEdge(ins, leaders, succs, e, i));
    BlockInRange(isa, ins, i);
    if FallEdge(ins, leaders, e, i) {
      BlockInRange(isa, ins, i - 1);
    } else {
      var t :| t in succs[ins[i].addr] && IsNodeAt(ins, leaders, t, e.1);
      var j :| 0 <= j < |ins| && StartsBlock(ins, leaders, j) && ins[j].addr == t && BlockOf(ins, leaders, j) == b;
      BlockInRange(isa, ins, j);
    }
  }

  /** The nodes and predecessors of the finished graph are those of its edges. */
  lemma CfgIsGraphOf(g: Graph, count: nat, edges: seq<BlockEdge>, all: set<BlockEdge>)
    requires count > 0 && IsCfg(g, count, edges) && forall e :: e in edges <==> e in all
    requires forall a: nat, b: nat | (NodeRef.Node(a), NodeRef.Node(b)) in all :: a < count && b < count
    ensures IsGraphOf(g, count, all)
  {
    forall b: nat ensures b in g.nodes <==> b < count {
      assert b < count ==> g.nodes[b] == b;
    }
    forall b: nat, a: nat | b < count && a in g.preds[b]
      ensures a < count
    {
      assert (NodeRef.Node(a), NodeRef.Node(b)) in edges;
    }
  }

  /** The graph that was built from all entries is the one extracted from the instructions. */
  lemma BuiltIsExtracted(g: Graph, isa: Isa, code: seq<Reading>, edges: seq<BlockEdge>, count: nat)
    requires Separate(code) && |code| > 0 && Ascending(FirstEntries(code))
    requires count == |Blocks(Entries(code), Leaders(isa, Entries(code)), |Entries(code)|)|
    requires IsCfg(g, count, edges) && forall e :: e in edges <==> e in FinalEdges(isa, Entries(code))
    ensures Extracts(g, isa, FirstEntries(code))
  {
    var heads := FirstEntries(code);
    EntriesDoNotMatter(isa, code);
    BlocksCount(heads, Leaders(isa, heads), |heads|);
    assert count == BlockCount(isa, heads);
    FinalIsLess(isa, heads);
    hide ProgramEdges, FinalEdges, Leaders, Blocks, Entries, FirstEntries, Separate, Ascending, BlockCount, IsCfg, IsGraphOf;
    forall a: nat, b: nat | (NodeRef.Node(a), NodeRef.Node(b)) in FinalEdges(isa, heads)
      ensures a < count && b < count
    {
      EdgesStayInside(isa, heads, a, b);
    }
    CfgIsGraphOf(g, count, edges, FinalEdges(isa, heads));
  }

  /** Some run of the program executes block `b`. */
  ghost predicate Executed(isa: Isa, ins: seq<Instr>, b: nat) {
    exists r, i :: Run(isa, ins, r, i) && InBlock(isa, ins, i, b)
  }

  /** Every bound is at the innermost loop around its block, and every run that comes to the block
      has entered that loop at its head. */
  ghost predicate BoundsFollowRuns(isa: Isa, ins: seq<Instr>, heads: seq<Node>, sets: seq<set<Node>>,
                                   annots: seq<Annotation>, prior: seq<Bound>, bounds: seq<Bound>)
    requires |heads| == |sets|
  {
    && BoundsAreInnermost(sets, annots, prior, bounds)
    && forall a, j: nat, r, i | a in annots && IsInnermost(sets, a, j) && Run(isa, ins, r, i) && InBlock(isa, ins, i, a.node) ::
         Visits(isa, ins, r, heads[j])
  }

  lemma InnermostIsEntered(g: Graph, isa: Isa, ins: seq<Instr>, d: DomMap, heads: seq<Node>, sets: seq<set<Node>>,
                           annots: seq<Annotation>, prior: seq<Bound>, bounds: seq<Bound>)
    requires WellPlaced(isa, ins) && Extracts(g, isa, ins) && Exact(g, d) && AreLoops(g, d, heads, sets)
    requires BoundsAreInnermost(sets, annots, prior, bounds)
    ensures BoundsFollowRuns(isa, ins, heads, sets, annots, prior, bounds)
  {
    hide WellPlaced, Extracts, Exact, LoopOf, Run, InBlock, Visits, BoundsAreInnermost;
    forall a, j: nat, r, i | a in annots && IsInnermost(sets, a, j) && Run(isa, ins, r, i) && InBlock(isa, ins, i, a.node)
      ensures Visits(isa, ins, r, heads[j])
    {
      RunsEnterAtHeader(g, isa, ins, d, heads[j], a.node, i, r);
    }
  }

  lemma ExecutedAreReachable(g: Graph, isa: Isa, ins: seq<Instr>, annots: seq<Annotation>)
    requires WellPlaced(isa, ins) && Extracts(g, isa, ins)
    requires forall a | a in annots && a.node >= 0 :: Executed(isa, ins, a.node)
    ensures forall a | a in annots && a.node >= 0 :: Reachable(g, a.node)
  {
    hide WellPlaced, Extracts, Run, InBlock, Reachable;
    forall a | a in annots && a.node >= 0
      ensures Reachable(g, a.node)
    {
      var r, i :| Run(isa, ins, r, i) && InBlock(isa, ins, i, a.node);
      ExecutedIsReachable(g, isa, ins, r, i, a.node);
    }
  }

  /** Reads, builds and finalises one function. If the code is well placed, the annotated blocks are
      executed by some run and the dominators are exact, every bound is at the innermost loop that the
      runs through its block enter. */
  method BoundLoops(isa: Isa, code: seq<Reading>, earlier: map<Node, int>, annots: seq<Annotation>)
    returns (computer: LoopComputer, g: Graph, ghost d: DomMap, ghost unsettled: bool)
    requires |code| > 0 && Separate(code) && Ascending(FirstEntries(code))
    ensures Extracts(g, isa, FirstEntries(code))
    ensures AreLoops(g, d, Heads(computer.loops), NodeSets(computer.loops))
    ensures (!unsettled ==> Exact(g, d)) && (Exact(g, d) <==> CheapDetours(g, MAX_PASSES))
    ensures |g.nodes| <= 22 ==> Exact(g, d)
    ensures WellPlaced(isa, FirstEntries(code)) && Exact(g, d)
            && (forall a | a in annots && a.node >= 0 :: Executed(isa, FirstEntries(code), a.node)) ==>
              BoundsFollowRuns(isa, FirstEntries(code), Heads(computer.loops), NodeSets(computer.loops), annots,
                               Priors(earlier, Heads(computer.loops)), Bounds(computer.loops))
  {
    hide CheapDetours, Exact, BoundsAreInnermost, BoundsFollowRuns, AreLoops, WellPlaced, Extracts, Executed, Reachable, Ascending;
    g := BuildGraph(isa, code);
    assert g.Valid() by {
      ExtractsIsValid(g, isa, FirstEntries(code));
    }
    computer, d, unsettled := FinalizeLoops(g, earlier, annots);
    if WellPlaced(isa, FirstEntries(code)) && Exact(g, d)
       && forall a | a in annots && a.node >= 0 :: Executed(isa, FirstEntries(code), a.node) {
      ExecutedAreReachable(g, isa, FirstEntries(code), annots);
      InnermostIsEntered(g, isa, FirstEntries(code), d, Heads(computer.loops), NodeSets(computer.loops), annots,
                         Priors(earlier, Heads(computer.loops)), Bounds(computer.loops));
    }
  }

  lemma ExtractsIsValid(g: Graph, isa: Isa, ins: seq<Instr>)
    requires Extracts(g, isa, ins)
    ensures g.Valid()
  {
  }

  /** Reads one function and builds its graph. */
  method BuildGraph(isa: Isa, code: seq<Reading>) returns (g: Graph)
    requires |code| > 0 && Separate(code) && Ascending(FirstEntries(code))
    ensures Extracts(g, isa, FirstEntries(code))
  {
    hide Extracts, ProgramEdges, FinalEdges, Ascending;
    var builder := new CfgBuilder(isa);
    assert builder.Collected();
    hide Leaders, Successors;
    builder.ReadFunction(code);
    builder.BuildHeptaneCfg();
    g := builder.GetCfg();
    assert forall e :: e in builder.edges <==> e in builder.EdgeSet();
    BuiltIsExtracted(g, isa, code, builder.edges, |builder.nodes|);
  }
}
