/** A function with delay slots, as for MIPS: its blocks and edges. */
module DelaySlots {
  import opened ExtractionSpec
  import opened ProgramSimulation

  const MIPS: Isa := Isa(4, 1, false)

  /** A conditional jump to the end, a call and a return, each with its delay slot. */
  function BranchCallReturn(): seq<Instr> {
    [Instr(4, CondJump(20), CondJump(20)), Instr(8, Plain, Plain),
     Instr(12, Call, Call), Instr(16, Plain, Plain),
     Instr(20, Return, Return), Instr(24, Plain, Plain)]
  }

  lemma IsWellPlaced()
    ensures WellPlaced(MIPS, BranchCallReturn())
  {
    SpacedIsPlaced(MIPS, BranchCallReturn());
  }

  /** Each control instruction shares a block with its slot. */
  lemma BlocksHoldTheirSlots()
    ensures var ins, leaders := BranchCallReturn(), Leaders(MIPS, BranchCallReturn());
            && StartsBlock(ins, leaders, 0) && StartsBlock(ins, leaders, 2) && StartsBlock(ins, leaders, 4)
            && EndsBlock(ins, leaders, 1) && EndsBlock(ins, leaders, 3) && EndsBlock(ins, leaders, 5)
            && BlockOf(ins, leaders, 0) == BlockOf(ins, leaders, 1) == 0
            && BlockOf(ins, leaders, 2) == BlockOf(ins, leaders, 3) == 1
            && BlockOf(ins, leaders, 4) == BlockOf(ins, leaders, 5) == 2
  {
    var ins := BranchCallReturn();
    LeadersAre(MIPS, ins, 8);
    LeadersAre(MIPS, ins, 12);
    LeadersAre(MIPS, ins, 16);
    LeadersAre(MIPS, ins, 20);
    LeadersAre(MIPS, ins, 24);
    assert 12 in LeadersOf(MIPS, ins[0]) && 20 in LeadersOf(MIPS, ins[2]);
    hide Leaders;
  }

  /** The jump leads to the call and to the return, the call comes back before the return, and the return
      leads nowhere. */
  lemma EdgesOfBranchCallReturn(a: nat, b: nat)
    requires a < 3 && b < 3
    ensures (NodeRef.Node(a), NodeRef.Node(b)) in ProgramEdges(MIPS, BranchCallReturn()) <==>
            (a == 0 && b == 1) || (a == 0 && b == 2) || (a == 1 && b == 2)
  {
    hide *;
    IsWellPlaced();
    BlocksHoldTheirSlots();
    SlotSteps(2 * a, 2 * b);
    EdgeMeans(MIPS, BranchCallReturn(), 2 * a + 1, 2 * b);
  }

  lemma Kinds(c: nat, j: nat)
    requires c <= 4 && c % 2 == 0 && j <= 4 && j % 2 == 0
    ensures MIPS.delay == 1 && MIPS.size == 4 && |BranchCallReturn()| == 6
    ensures BranchCallReturn()[c].kind == if c == 0 then CondJump(20) else if c == 2 then Call else Return
    ensures BranchCallReturn()[j].addr == 4 + 4 * j && BranchCallReturn()[c + 1].addr == 8 + 4 * c
    ensures SeenTransfers(MIPS, BranchCallReturn(), c, c + 1)
  {
  }

  /** The steps out of a slot, and nothing stray. */
  lemma SlotSteps(c: nat, j: nat)
    requires c <= 4 && c % 2 == 0 && j <= 4 && j % 2 == 0
    ensures |BranchCallReturn()| == 6
    ensures GoesTo(MIPS, BranchCallReturn(), c + 1, j) <==>
            (c == 0 && j == 2) || (c == 0 && j == 4) || (c == 2 && j == 4)
    ensures !StrayFall(MIPS, BranchCallReturn(), c + 1, j)
  {
    var ins := BranchCallReturn();
    IsWellPlaced();
    Kinds(c, j);
    InPlace(MIPS, ins);
    SeenIsNotStray(MIPS, ins, c, c + 1, j);
    hide *;
    StepsByKind(MIPS, ins, c, j);
    StepIsGoing(MIPS, ins, c + 1, j);
  }

  lemma InPlace(isa: Isa, ins: seq<Instr>)
    requires WellPlaced(isa, ins)
    ensures InOrder(isa, ins)
  {
  }

  lemma StepIsGoing(isa: Isa, ins: seq<Instr>, i: nat, j: nat)
    requires i < |ins| && j < |ins|
    ensures Step(isa, ins, i, j) <==> GoesTo(isa, ins, i, j)
  {
  }
}
