/** Functions on whose graphs a given number of dominator passes is not enough. */
module ChainPrograms {
  import opened ExtractionSpec
  import opened Cleaning
  import opened FlowGraph
  import opened DominatorSpec
  import opened DominatorAnalysis
  import opened ProgramSimulation
  import opened ProgramRuns

  const WORD: Isa := Isa(4, 0, false)

  function Address(i: nat): nat {
    4 + 4 * i
  }

  /** A conditional jump to the last instruction, two returns, and jumps back one instruction each. */
  function ChainKind(k: nat, i: nat): Kind {
    if i == 0 then CondJump(Address(k + 2)) else if i <= 2 then Return else Jump(Address(i - 1))
  }

  function ChainProgram(k: nat): seq<Instr> {
    seq(k + 3, i requires i >= 0 => Instr(Address(i), ChainKind(k, i), ChainKind(k, i)))
  }

  lemma ChainInstr(k: nat, i: nat)
    requires i < k + 3
    ensures |ChainProgram(k)| == k + 3
    ensures var x := ChainProgram(k)[i]; x.addr == Address(i) && x.kind == x.seen == ChainKind(k, i) && IsControl(x)
  {
  }

  lemma ChainIsPlaced(k: nat)
    ensures WellPlaced(WORD, ChainProgram(k)) && NoHiddenStop(WORD, ChainProgram(k)) && NoGapFall(WORD, ChainProgram(k))
  {
    var ins := ChainProgram(k);
    assert forall i: nat | i < |ins| :: IsControl(ins[i]) && SeenControl(ins[i]);
    assert forall i | 0 <= i < |ins| :: ins[i].addr == ins[0].addr + i * WORD.size;
    assert Spaced(WORD, ins) && OnlyControlSeen(ins);
    hide ChainProgram, ChainKind;
    SpacedIsPlaced(WORD, ins);
  }

  /** Every instruction is a block of its own. */
  lemma {:induction false} ChainBlock(k: nat, i: nat)
    requires i < k + 3
    ensures |ChainProgram(k)| == k + 3
    ensures StartsBlock(ChainProgram(k), Leaders(WORD, ChainProgram(k)), i)
    ensures EndsBlock(ChainProgram(k), Leaders(WORD, ChainProgram(k)), i)
    ensures BlockOf(ChainProgram(k), Leaders(WORD, ChainProgram(k)), i) == i
  {
    var ins := ChainProgram(k);
    ChainIsPlaced(k);
    ChainInstr(k, i);
    hide ChainProgram, WellPlaced, Leaders;
    ControlEndsBlock(WORD, ins, i);
    if i > 0 {
      ChainBlock(k, i - 1);
    }
  }

  /** An edge leads to every target. */
  lemma ChainEdgeIsTarget(k: nat, a: nat, b: nat)
    requires a < k + 3 && b < k + 3
    ensures |ChainProgram(k)| == k + 3
    ensures (NodeRef.Node(a), NodeRef.Node(b)) in ProgramEdges(WORD, ChainProgram(k))
            <==> ComesTo(WORD, ChainProgram(k), a, Address(b))
  {
    var ins := ChainProgram(k);
    ChainIsPlaced(k);
    ChainBlock(k, a);
    ChainBlock(k, b);
    ChainInstr(k, a);
    ChainInstr(k, b);
    assert Transfers(WORD, ins, a, a) && SeenTransfers(WORD, ins, a, a);
    hide *;
    EdgeMeans(WORD, ins, a, b);
    OnlyTransfer(WORD, ins, a, a, b);
    SeenIsNotStray(WORD, ins, a, a, b);
  }

  /** The targets are those of the chain. */
  lemma ChainTarget(k: nat, a: nat, b: nat)
    requires a < k + 3 && b < k + 3
    ensures |ChainProgram(k)| == k + 3
    ensures ComesTo(WORD, ChainProgram(k), a, Address(b)) <==> Edge(ReversedChain(k), a, b)
  {
    ReversedChainIsOne(k);
    ChainInstr(k, a);
    hide ChainProgram, ReversedChain;
  }

  lemma ChainEdge(k: nat, a: nat, b: nat)
    requires a < k + 3 && b < k + 3
    ensures (NodeRef.Node(a), NodeRef.Node(b)) in ProgramEdges(WORD, ChainProgram(k)) <==> Edge(ReversedChain(k), a, b)
  {
    hide *;
    ChainEdgeIsTarget(k, a, b);
    ChainTarget(k, a, b);
  }

  lemma ChainIsExtracted(k: nat)
    ensures Extracts(ReversedChain(k), WORD, ChainProgram(k))
  {
    var g, ins := ReversedChain(k), ChainProgram(k);
    ReversedChainIsOne(k);
    ChainBlock(k, k + 2);
    assert BlockCount(WORD, ins) == k + 3 && FinalEdges(WORD, ins) == ProgramEdges(WORD, ins);
    hide ProgramEdges, FinalEdges, ChainProgram, BlockCount, ReversedChain;
    forall a: nat, b: nat
      ensures Edge(g, a, b) <==> a < k + 3 && b < k + 3 && (NodeRef.Node(a), NodeRef.Node(b)) in FinalEdges(WORD, ins)
    {
      if a < k + 3 && b < k + 3 {
        ChainEdge(k, a, b);
      }
    }
  }

  /** For every number of passes there is a function, of that many instructions and three more, whose
      graph they leave with wrong dominators. */
  lemma CapFallsShort(k: nat)
    ensures WellPlaced(WORD, ChainProgram(k)) && |ChainProgram(k)| == k + 3
    ensures var g := ReversedChain(k); Extracts(g, WORD, ChainProgram(k)) && !Exact(g, Iterate(g, k))
  {
    ChainIsPlaced(k);
    ChainInstr(k, 0);
    ChainIsExtracted(k);
    TooFewPasses(k);
  }

  /** The cap of the program is too low for a function of 23 blocks. */
  lemma ProgramCapFallsShort()
    ensures |ChainProgram(20)| == 23 && Extracts(ReversedChain(20), WORD, ChainProgram(20))
    ensures |ReversedChain(20).nodes| == 23
    ensures !Exact(ReversedChain(20), Iterate(ReversedChain(20), MAX_PASSES))
  {
    hide ReversedChain, ChainProgram, Extracts, Exact, Iterate;
    CapFallsShort(20);
    TooFewPasses(20);
  }
}
