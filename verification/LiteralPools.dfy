/** Gaps in ARM code, where literal pools stand, and the padding before them. */
module LiteralPools {
  import opened ExtractionSpec
  import opened Cleaning
  import opened ProgramSimulation

  /** The padding blocks of a function. */
  ghost function Padding(isa: Isa, ins: seq<Instr>): set<nat> {
    NopBlocks(Blocks(ins, Leaders(isa, ins), |ins|))
  }

  /** No instruction of a padding block is a control instruction. */
  lemma PaddingIsOne(isa: Isa, ins: seq<Instr>, k: nat)
    requires WellPlaced(isa, ins) && k < |ins| && BlockOf(ins, Leaders(isa, ins), k) in Padding(isa, ins)
    ensures !IsControl(ins[k])
  {
    var leaders, f := Leaders(isa, ins), FirstOf(ins, Leaders(isa, ins), k);
    var nodes, firsts := Blocks(ins, leaders, |ins|), Firsts(ins, leaders, |ins|);
    BlocksAreBlocks(ins, leaders, |ins|);
    assert OnlyControlSeen(ins);
    var b := BlockOf(ins, leaders, k);
    OneEntryBlock(ins, leaders, nodes, firsts, b, f, k);
    hide WellPlaced, AreBlocks, Blocks, Leaders, Firsts;
  }

  /** The only instruction of a block of one entry. */
  lemma {:induction false} OneEntryBlock(ins: seq<Instr>, leaders: set<nat>, nodes: seq<seq<Instr>>, firsts: seq<nat>, b: nat, f: nat, k: nat)
    requires AreBlocks(ins, leaders, |ins|, nodes, firsts) && b < |nodes| && |nodes[b]| == 1
    requires f <= k < |ins| && StartsBlock(ins, leaders, f)
    requires BlockOf(ins, leaders, f) == BlockOf(ins, leaders, k) == b
    ensures nodes[b][0] == ins[k]
  {
    BlockOfGrows(ins, leaders, f, k);
    hide StartsBlock, BlockOf;
    assert firsts[b] == f;
  }

  /** Padding makes no transfer, so its only edge leads into the next block. */
  lemma PaddingEdge(isa: Isa, ins: seq<Instr>, e: BlockEdge)
    requires WellPlaced(isa, ins) && e in ProgramEdges(isa, ins) && e.0.Node? && e.0.index in Padding(isa, ins)
    ensures e.1 == Node(e.0.index + 1)
  {
    var leaders, succs := Leaders(isa, ins), Successors(isa, ins);
    PlacedAscending(isa, ins);
    EdgesAre(isa, ins, e);
    hide WellPlaced, ProgramEdges, Padding, Leaders, Successors, ComesTo;
    var k :| 0 <= k < |ins| && (FallEdge(ins, leaders, e, k) || SuccEdge(ins, leaders, succs, e, k));
    if SuccEdge(ins, leaders, succs, e, k) {
      var t :| t in succs[ins[k].addr] && IsNodeAt(ins, leaders, t, e.1);
      RecordedTargets(isa, ins, k, t);
      TargetsOfControl(isa, ins, k, t);
      PaddingIsOne(isa, ins, k);
      assert false;
    }
  }

  /** Cleaning takes off exactly the edges out of padding that no edge of the finished graph leads to. */
  lemma FinalEdgesAre(isa: Isa, ins: seq<Instr>, e: BlockEdge)
    requires WellPlaced(isa, ins)
    ensures e in FinalEdges(isa, ins) <==>
            e in ProgramEdges(isa, ins)
            && !(isa.arm && e.0.Node? && e.0.index > 0 && Isolated(FinalEdges(isa, ins), Padding(isa, ins), e.0.index))
  {
    var nodes := Blocks(ins, Leaders(isa, ins), |ins|);
    forall f | f in ProgramEdges(isa, ins) && f.0.Node? && f.0.index in Padding(isa, ins)
      ensures f.1 == Node(f.0.index + 1)
    {
      PaddingEdge(isa, ins, f);
    }
    hide WellPlaced, ProgramEdges, Blocks, Leaders, CleanTo;
    CleanedExactly(ProgramEdges(isa, ins), NopBlocks(nodes), |nodes|, e);
  }

  // ---- A literal pool behind a branch

  /** `b 16` at 4, a `nop` for alignment at 8, a word of data at 12, and the code behind it. */
  function BranchOverPool(): seq<Instr> {
    [Instr(4, Jump(16), Jump(16)), Instr(8, Nop, Nop), Instr(16, Plain, Plain)]
  }

  lemma PoolLeaders()
    ensures forall a :: a in Leaders(Isa(4, 0, true), BranchOverPool()) <==> a == 8 || a == 16
  {
    var isa, ins := Isa(4, 0, true), BranchOverPool();
    forall a
      ensures a in Leaders(isa, ins) <==> a == 8 || a == 16
    {
      LeadersAre(isa, ins, a);
      assert a in LeadersOf(isa, ins[0]) <==> a == 8 || a == 16;
    }
  }

  lemma PoolIsPlaced()
    ensures WellPlaced(Isa(4, 0, true), BranchOverPool())
  {
    assert JumpsTo(BranchOverPool()[0], 16);
  }

  /** The `nop` is made to fall through the data into the code behind it; cleaning takes that edge off,
      and leaves the branch. */
  lemma PoolIsCleaned()
    ensures var isa, ins := Isa(4, 0, true), BranchOverPool();
            && GapFall(isa, ins, 1, 2) && (Node(1), Node(2)) in ProgramEdges(isa, ins)
            && (Node(1), Node(2)) !in FinalEdges(isa, ins) && (Node(0), Node(2)) in FinalEdges(isa, ins)
  {
    var isa, ins := Isa(4, 0, true), BranchOverPool();
    var leaders := Leaders(isa, ins);
    PoolLeaders();
    PoolIsPlaced();
    assert BlockOf(ins, leaders, 0) == 0 && BlockOf(ins, leaders, 1) == 1 && BlockOf(ins, leaders, 2) == 2;
    assert Transfers(isa, ins, 0, 0);
    assert GapFall(isa, ins, 1, 2);
    EdgeMeans(isa, ins, 1, 2);
    EdgeMeans(isa, ins, 0, 2);
    FinalKeepsEntered(isa, ins, 0, Node(2));
    PoolPadding();
    forall a: nat
      ensures (Node(a), Node(1)) !in FinalEdges(isa, ins)
    {
      FinalIsLess(isa, ins);
      if (Node(a), Node(1)) in ProgramEdges(isa, ins) {
        NothingEntersPadding(a);
      }
    }
    FinalEdgesAre(isa, ins, (Node(1), Node(2)));
  }

  lemma PoolPadding()
    ensures 1 in Padding(Isa(4, 0, true), BranchOverPool())
  {
    var isa, ins := Isa(4, 0, true), BranchOverPool();
    var leaders := Leaders(isa, ins);
    PoolLeaders();
    hide Leaders;
    assert Blocks(ins, leaders, 0) == [];
    assert Blocks(ins, leaders, 1) == [[ins[0]]];
    assert Blocks(ins, leaders, 2) == [[ins[0]], [ins[1]]];
    assert Blocks(ins, leaders, 3) == [[ins[0]], [ins[1]], [ins[2]]];
  }

  lemma {:induction false} PoolBlocks(j: nat)
    requires j < 3
    ensures BlockOf(BranchOverPool(), Leaders(Isa(4, 0, true), BranchOverPool()), j) == j
  {
    PoolLeaders();
    hide Leaders;
    if j > 0 {
      PoolBlocks(j - 1);
    }
  }

  lemma NoWayToPadding(i: nat)
    ensures !Step(Isa(4, 0, true), BranchOverPool(), i, 1) && !StrayFall(Isa(4, 0, true), BranchOverPool(), i, 1)
  {
    var isa, ins := Isa(4, 0, true), BranchOverPool();
    assert Transfers(isa, ins, 0, 0);
    assert forall c: nat, k: nat | Transfers(isa, ins, c, k) :: c == 0 && k == 0;
  }

  /** The ends of an edge between two blocks. */
  lemma EdgeEnds(isa: Isa, ins: seq<Instr>, a: nat, b: nat) returns (i: nat, j: nat)
    requires WellPlaced(isa, ins) && (Node(a), Node(b)) in ProgramEdges(isa, ins)
    ensures j < |ins| && BlockOf(ins, Leaders(isa, ins), j) == b
    ensures Step(isa, ins, i, j) || StrayFall(isa, ins, i, j)
  {
    hide *;
    var e := (Node(a), Node(b));
    EveryEdgeIsAStep(isa, ins, e);
    i :| IsStepEdge(isa, ins, e, i);
    j := StepEdgeEnd(isa, ins, e, i, b);
  }

  lemma StepEdgeEnd(isa: Isa, ins: seq<Instr>, e: BlockEdge, i: nat, b: nat) returns (j: nat)
    requires IsStepEdge(isa, ins, e, i) && e.1 == Node(b)
    ensures j < |ins| && BlockOf(ins, Leaders(isa, ins), j) == b
    ensures Step(isa, ins, i, j) || StrayFall(isa, ins, i, j)
  {
    hide GoesTo, Leaders, BlockOf, StartsBlock, EndsBlock, Transfers, SeenControl;
    j :| (Step(isa, ins, i, j) || StrayFall(isa, ins, i, j))
         && StartsBlock(ins, Leaders(isa, ins), j) && BlockOf(ins, Leaders(isa, ins), j) == b;
  }

  lemma NothingEntersPadding(a: nat)
    ensures (Node(a), Node(1)) !in ProgramEdges(Isa(4, 0, true), BranchOverPool())
  {
    var isa, ins := Isa(4, 0, true), BranchOverPool();
    assert |ins| == 3;
    PoolIsPlaced();
    hide WellPlaced, ProgramEdges, Step, StrayFall, Leaders, BlockOf, BranchOverPool;
    if (Node(a), Node(1)) in ProgramEdges(isa, ins) {
      var i, j := EdgeEnds(isa, ins, a, 1);
      PoolBlocks(j);
      NoWayToPadding(i);
    }
  }
}
