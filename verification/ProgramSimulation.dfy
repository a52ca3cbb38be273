/** The extracted graph against the instruction-level program. */
module ProgramSimulation {
  import opened ExtractionSpec

  /** Instructions of equal size at nonzero addresses, none reaching into the next, with one entry each.
      There may be gaps, where data stands. */
  ghost predicate InOrder(isa: Isa, ins: seq<Instr>) {
    && |ins| > 0 && isa.size > 0 && ins[0].addr > 0
    && forall i, j | 0 <= i < j < |ins| :: ins[i].addr + isa.size <= ins[j].addr
  }

  /** Instruction `j` is listed and placed directly behind `i`. */
  ghost predicate Adjacent(isa: Isa, ins: seq<Instr>, i: nat, j: nat) {
    j == i + 1 && j < |ins| && ins[j].addr == ins[i].addr + isa.size
  }

  predicate JumpsTo(x: Instr, t: nat) {
    match x.kind
    case Jump(u) => t == u
    case CondJump(u) => t == u
    case _ => false
  }

  /** Some instruction jumps to address `t`. */
  ghost predicate IsJumpTarget(ins: seq<Instr>, t: nat) {
    exists b | 0 <= b < |ins| :: JumpsTo(ins[b], t)
  }

  /** Every control instruction has its delay slots in the function, without gaps; a delay slot is
      neither a control instruction nor a jump target. */
  ghost predicate HasDelaySlots(isa: Isa, ins: seq<Instr>) {
    forall c | 0 <= c < |ins| && IsControl(ins[c]) ::
      && c + isa.delay < |ins|
      && forall k | c < k <= c + isa.delay ::
           && ins[k].addr == ins[c].addr + (k - c) * isa.size
           && !IsControl(ins[k]) && !IsJumpTarget(ins, ins[k].addr)
  }

  /** Only the entry of a control instruction counts as one, and none of those counts as padding. */
  ghost predicate OnlyControlSeen(ins: seq<Instr>) {
    && (forall c | 0 <= c < |ins| && SeenControl(ins[c]) :: IsControl(ins[c]))
    && (forall c | 0 <= c < |ins| && ins[c].seen.Nop? :: !IsControl(ins[c]))
  }

  /** What is listed behind the delay slots of a control instruction is directly behind them or a jump target. */
  ghost predicate LeaderBehind(isa: Isa, ins: seq<Instr>) {
    forall c: nat | c + isa.delay + 1 < |ins| && IsControl(ins[c]) ::
      Adjacent(isa, ins, c + isa.delay, c + isa.delay + 1) || IsJumpTarget(ins, ins[c + isa.delay + 1].addr)
  }

  ghost predicate WellPlaced(isa: Isa, ins: seq<Instr>) {
    InOrder(isa, ins) && HasDelaySlots(isa, ins) && LeaderBehind(isa, ins) && OnlyControlSeen(ins)
  }

  /** Equally spaced code at a nonzero address: there the instruction behind the delay slots always is one. */
  ghost predicate Spaced(isa: Isa, ins: seq<Instr>) {
    && |ins| > 0 && isa.size > 0 && ins[0].addr > 0
    && forall i | 0 <= i < |ins| :: ins[i].addr == ins[0].addr + i * isa.size
  }

  /** Instruction `i` ends the delay slots of the control instruction at `c`. */
  ghost predicate Transfers(isa: Isa, ins: seq<Instr>, c: nat, i: nat) {
    c < |ins| && IsControl(ins[c]) && i == c + isa.delay
  }

  /** The same, for a control instruction that still counts as one when edges are made. */
  ghost predicate SeenTransfers(isa: Isa, ins: seq<Instr>, c: nat, i: nat) {
    Transfers(isa, ins, c, i) && SeenControl(ins[c])
  }

  /** Instruction `j` follows the delay slots of a control instruction that no longer counts as one. */
  ghost predicate HiddenFall(isa: Isa, ins: seq<Instr>, i: nat, j: nat) {
    j < |ins| && j == i + 1 && exists c: nat :: Transfers(isa, ins, c, i) && !SeenControl(ins[c])
  }

  /** Instruction `j` is listed behind `i`, but there is a gap between them that control falls into. */
  ghost predicate GapFall(isa: Isa, ins: seq<Instr>, i: nat, j: nat) {
    && j < |ins| && j == i + 1 && ins[j].addr != ins[i].addr + isa.size
    && !exists c: nat :: Transfers(isa, ins, c, i)
  }

  /** The extractor lets control fall from `i` into `j`, without regard to a hidden transfer or a gap. */
  ghost predicate StrayFall(isa: Isa, ins: seq<Instr>, i: nat, j: nat) {
    HiddenFall(isa, ins, i, j) || GapFall(isa, ins, i, j)
  }

  /** A control instruction that no longer counts as one comes last or goes on to what is listed behind
      its delay slots anyway. */
  ghost predicate NoHiddenStop(isa: Isa, ins: seq<Instr>) {
    forall c: nat | c < |ins| && IsControl(ins[c]) && !SeenControl(ins[c]) && c + isa.delay + 1 < |ins| ::
      ComesTo(isa, ins, c, ins[c + isa.delay + 1].addr)
  }

  /** Gaps stand behind transfers only. */
  ghost predicate NoGapFall(isa: Isa, ins: seq<Instr>) {
    forall i, j :: !GapFall(isa, ins, i, j)
  }

  /** Where a control instruction goes after its delay slots, by its kind: a call comes back behind them,
      a return goes nowhere in the function, a jump goes to its target, a conditional jump to either. */
  ghost predicate ComesTo(isa: Isa, ins: seq<Instr>, c: nat, t: nat) {
    c + isa.delay < |ins| &&
    match ins[c].kind
    case Call => t == ins[c + isa.delay].addr + isa.size
    case Return => false
    case Jump(u) => t == u
    case CondJump(u) => t == u || t == ins[c + isa.delay].addr + isa.size
    case _ => false
  }

  /** Execution can go on at `j` after `i`. */
  ghost predicate GoesTo(isa: Isa, ins: seq<Instr>, i: nat, j: nat)
    requires i < |ins| && j < |ins|
  {
    if exists c: nat :: Transfers(isa, ins, c, i)
    then exists c: nat :: Transfers(isa, ins, c, i) && ComesTo(isa, ins, c, ins[j].addr)
    else Adjacent(isa, ins, i, j)
  }

  /** One step of execution inside the function, from the instruction at `i` to the one at `j`. */
  ghost predicate Step(isa: Isa, ins: seq<Instr>, i: nat, j: nat) {
    i < |ins| && j < |ins| && GoesTo(isa, ins, i, j)
  }

  /** One step in the extracted graph: inside a block, or from the last instruction of a block
      along an edge to the first instruction of a block. */
  ghost predicate GraphStep(isa: Isa, ins: seq<Instr>, i: nat, j: nat) {
    var leaders := Leaders(isa, ins);
    && i < |ins| && j < |ins|
    && (if EndsBlock(ins, leaders, i)
        then StartsBlock(ins, leaders, j) &&
             (Node(BlockOf(ins, leaders, i)), Node(BlockOf(ins, leaders, j))) in ProgramEdges(isa, ins)
        else j == i + 1)
  }

  // ---- What was recorded, for distinct addresses

  lemma {:induction false} LeadersAre(isa: Isa, ins: seq<Instr>, a: nat)
    ensures a in Leaders(isa, ins) <==> exists i | 0 <= i < |ins| :: a in LeadersOf(isa, ins[i])
  {
    if ins != [] {
      var last := |ins| - 1;
      LeadersAre(isa, ins[..last], a);
      if i :| 0 <= i < |ins| && a in LeadersOf(isa, ins[i]) {
        assert i < last ==> ins[..last][i] == ins[i];
      }
    }
  }

  lemma {:induction false} SuccessorsAre(isa: Isa, ins: seq<Instr>, a: nat)
    requires forall i, j | 0 <= i < j < |ins| :: ins[i].addr != ins[j].addr
    ensures a in Successors(isa, ins) ==>
              exists i | 0 <= i < |ins| :: ins[i].addr == a && Targets(isa, ins[i]) != {}
    ensures forall i | 0 <= i < |ins| && ins[i].addr == a && Targets(isa, ins[i]) != {} ::
              a in Successors(isa, ins) && Successors(isa, ins)[a] == Targets(isa, ins[i])
  {
    if ins != [] {
      var last := |ins| - 1;
      var before := ins[..last];
      SuccessorsAre(isa, before, a);
      assert forall i | 0 <= i < last :: before[i] == ins[i] && ins[i].addr != ins[last].addr;
    }
  }

  // ---- What was recorded, in terms of the program

  /** The recorded address behind the delay slots is the one behind the last of them. */
  lemma NextIsBehind(isa: Isa, ins: seq<Instr>, c: nat)
    requires HasDelaySlots(isa, ins) && c < |ins| && IsControl(ins[c])
    ensures c + isa.delay < |ins| && NextAddr(isa, ins[c]) == ins[c + isa.delay].addr + isa.size
  {
  }

  /** The recorded targets are where the program goes. */
  lemma ComesToTargets(isa: Isa, ins: seq<Instr>, c: nat, t: nat)
    requires HasDelaySlots(isa, ins) && c < |ins|
    ensures ComesTo(isa, ins, c, t) <==> t in Targets(isa, ins[c])
  {
    if IsControl(ins[c]) {
      NextIsBehind(isa, ins, c);
      hide HasDelaySlots;
    }
  }

  /** Only the next instruction can be directly behind another one. */
  lemma NothingBetween(isa: Isa, ins: seq<Instr>, e: nat, j: nat)
    requires InOrder(isa, ins) && e < |ins| && j < |ins|
    ensures ins[j].addr == ins[e].addr + isa.size ==> j == e + 1
  {
    if j > e + 1 {
      assert ins[e].addr + isa.size <= ins[e + 1].addr && ins[e + 1].addr + isa.size <= ins[j].addr;
    }
  }

  lemma BehindIsNext(isa: Isa, ins: seq<Instr>, c: nat, j: nat)
    requires InOrder(isa, ins) && HasDelaySlots(isa, ins) && c < |ins| && IsControl(ins[c]) && j < |ins|
    ensures ins[j].addr == NextAddr(isa, ins[c]) <==> Adjacent(isa, ins, c + isa.delay, j)
  {
    NextIsBehind(isa, ins, c);
    hide HasDelaySlots;
    NothingBetween(isa, ins, c + isa.delay, j);
  }

  /** The leaders among the instructions: jump targets, and what is directly behind delay slots. */
  lemma LeadersMean(isa: Isa, ins: seq<Instr>, j: nat)
    requires InOrder(isa, ins) && HasDelaySlots(isa, ins) && j < |ins|
    ensures ins[j].addr in Leaders(isa, ins) <==>
            || IsJumpTarget(ins, ins[j].addr)
            || exists c: nat :: c < |ins| && IsControl(ins[c]) && Adjacent(isa, ins, c + isa.delay, j)
  {
    LeadersAre(isa, ins, ins[j].addr);
    hide InOrder, HasDelaySlots, Leaders, Adjacent;
    if b :| 0 <= b < |ins| && ins[j].addr in LeadersOf(isa, ins[b]) {
      BehindIsNext(isa, ins, b, j);
      assert JumpsTo(ins[b], ins[j].addr) || Adjacent(isa, ins, b + isa.delay, j);
    }
    if b :| 0 <= b < |ins| && JumpsTo(ins[b], ins[j].addr) {
      assert ins[j].addr in LeadersOf(isa, ins[b]);
    }
    if c: nat :| c < |ins| && IsControl(ins[c]) && Adjacent(isa, ins, c + isa.delay, j) {
      BehindIsNext(isa, ins, c, j);
      assert ins[j].addr in LeadersOf(isa, ins[c]);
    }
  }

  /** A delay slot is no leader. */
  lemma SlotsAreNoLeaders(isa: Isa, ins: seq<Instr>, c: nat, k: nat)
    requires InOrder(isa, ins) && HasDelaySlots(isa, ins) && c < |ins| && IsControl(ins[c]) && c < k <= c + isa.delay
    ensures k < |ins| && ins[k].addr !in Leaders(isa, ins)
  {
    LeadersMean(isa, ins, k);
    hide InOrder, Leaders;
  }

  /** What is listed behind delay slots is a leader. */
  lemma BehindIsLeader(isa: Isa, ins: seq<Instr>, c: nat)
    requires InOrder(isa, ins) && HasDelaySlots(isa, ins) && c + isa.delay + 1 < |ins| && IsControl(ins[c])
    ensures ins[c + isa.delay + 1].addr in Leaders(isa, ins) <==>
            Adjacent(isa, ins, c + isa.delay, c + isa.delay + 1) || IsJumpTarget(ins, ins[c + isa.delay + 1].addr)
  {
    hide InOrder, HasDelaySlots, Leaders, IsJumpTarget;
    LeadersMean(isa, ins, c + isa.delay + 1);
    if b: nat :| b < |ins| && IsControl(ins[b]) && Adjacent(isa, ins, b + isa.delay, c + isa.delay + 1) {
      assert b == c;
    }
  }

  // ---- The second scan creates exactly the edges it should

  /** What the scan knows before instruction `k`. */
  ghost predicate ScanKnows(ins: seq<Instr>, leaders: set<nat>, succs: map<nat, set<nat>>, s: EdgeScan, k: nat)
    requires k <= |ins|
  {
    && (if k == 0 then s.curbb == 0 && !s.jump
        else s.curbb == ins[FirstOf(ins, leaders, k - 1)].addr && (s.jump <==> HasControl(ins, leaders, k - 1)))
    && forall e :: e in s.edges <==> EdgeBefore(ins, leaders, succs, e, k)
  }

  lemma EnterKnows(ins: seq<Instr>, leaders: set<nat>, succs: map<nat, set<nat>>, s: EdgeScan, k: nat, e: (NodeRef, NodeRef))
    requires Ascending(ins) && k < |ins| && ScanKnows(ins, leaders, succs, s, k) && StartsBlock(ins, leaders, k)
    ensures e in EnterBlock(Table(ins, leaders, |ins|), s, ins[k].addr).edges
            <==> e in s.edges || FallEdge(ins, leaders, e, k)
  {
    TableFinds(ins, leaders, |ins|, k);
    if k > 0 {
      TableFinds(ins, leaders, |ins|, FirstOf(ins, leaders, k - 1));
    }
  }

  lemma LinkKnows(ins: seq<Instr>, leaders: set<nat>, succs: map<nat, set<nat>>, k: nat, e: (NodeRef, NodeRef))
    requires Ascending(ins) && k < |ins| && NewAddr(ins, k)
    ensures var table := Table(ins, leaders, |ins|);
            e in LinkEdges(succs, table, ins[k].addr, Lookup(table, ins[FirstOf(ins, leaders, k)].addr))
            <==> SuccEdge(ins, leaders, succs, e, k)
  {
    var table := Table(ins, leaders, |ins|);
    TableFinds(ins, leaders, |ins|, FirstOf(ins, leaders, k));
    forall t
      ensures IsNodeAt(ins, leaders, t, e.1) <==> e.1 == Lookup(table, t)
    {
      LookupIsNodeAt(ins, leaders, t, e.1);
    }
  }

  lemma ControlStep(ins: seq<Instr>, leaders: set<nat>, k: nat)
    requires k < |ins|
    ensures HasControl(ins, leaders, k) <==>
            (NewAddr(ins, k) && SeenControl(ins[k])) ||
            (k > 0 && !StartsBlock(ins, leaders, k) && HasControl(ins, leaders, k - 1))
  {
  }

  lemma NextScanEdges(ins: seq<Instr>, leaders: set<nat>, succs: map<nat, set<nat>>, s: EdgeScan, k: nat, e: (NodeRef, NodeRef))
    requires Ascending(ins) && k < |ins| && ScanKnows(ins, leaders, succs, s, k)
    ensures e in NextScan(ins, leaders, Table(ins, leaders, |ins|), succs, s, k).edges
            <==> e in s.edges || FallEdge(ins, leaders, e, k) || SuccEdge(ins, leaders, succs, e, k)
  {
    if NewAddr(ins, k) {
      LinkKnows(ins, leaders, succs, k, e);
      if StartsBlock(ins, leaders, k) {
        EnterKnows(ins, leaders, succs, s, k, e);
      }
    }
  }

  lemma EdgeBeforeStep(ins: seq<Instr>, leaders: set<nat>, succs: map<nat, set<nat>>, k: nat, e: (NodeRef, NodeRef))
    requires k < |ins|
    ensures EdgeBefore(ins, leaders, succs, e, k + 1) <==>
            EdgeBefore(ins, leaders, succs, e, k) || FallEdge(ins, leaders, e, k) || SuccEdge(ins, leaders, succs, e, k)
  {
  }

  lemma NextScanKnows(ins: seq<Instr>, leaders: set<nat>, succs: map<nat, set<nat>>, s: EdgeScan, k: nat)
    requires Ascending(ins) && k < |ins| && ScanKnows(ins, leaders, succs, s, k)
    ensures ScanKnows(ins, leaders, succs, NextScan(ins, leaders, Table(ins, leaders, |ins|), succs, s, k), k + 1)
  {
    ControlStep(ins, leaders, k);
    forall e
      ensures e in NextScan(ins, leaders, Table(ins, leaders, |ins|), succs, s, k).edges
              <==> EdgeBefore(ins, leaders, succs, e, k + 1)
    {
      NextScanEdges(ins, leaders, succs, s, k, e);
      EdgeBeforeStep(ins, leaders, succs, k, e);
    }
  }

  lemma {:induction false} ScanMeaning(ins: seq<Instr>, leaders: set<nat>, succs: map<nat, set<nat>>, k: nat)
    requires Ascending(ins) && k <= |ins|
    ensures ScanKnows(ins, leaders, succs, ScanEdges(ins, leaders, Table(ins, leaders, |ins|), succs, k), k)
  {
    NothingScanned(ins, leaders, succs);
    hide ScanKnows, NextScan, Table, Ascending;
    if k > 0 {
      ScanMeaning(ins, leaders, succs, k - 1);
      NextScanKnows(ins, leaders, succs, ScanEdges(ins, leaders, Table(ins, leaders, |ins|), succs, k - 1), k - 1);
    }
  }

  lemma NothingScanned(ins: seq<Instr>, leaders: set<nat>, succs: map<nat, set<nat>>)
    ensures ScanKnows(ins, leaders, succs, EdgeScan(0, false, {}), 0)
  {
  }

  // ---- Blocks of well-placed code

  lemma PlacedAscending(isa: Isa, ins: seq<Instr>)
    requires WellPlaced(isa, ins)
    ensures Ascending(ins)
    ensures forall i, j | 0 <= i < j < |ins| :: ins[i].addr < ins[j].addr
  {
    hide HasDelaySlots, LeaderBehind, OnlyControlSeen;
  }

  lemma Scaled(i: int, j: int, size: int)
    requires i <= j && size > 0
    ensures i * size <= j * size
  {
  }

  /** Equally spaced code is well placed and has no gaps. */
  lemma SpacedIsPlaced(isa: Isa, ins: seq<Instr>)
    requires Spaced(isa, ins) && OnlyControlSeen(ins)
    requires forall c | 0 <= c < |ins| && IsControl(ins[c]) ::
               && c + isa.delay < |ins|
               && forall k | c < k <= c + isa.delay :: !IsControl(ins[k]) && !IsJumpTarget(ins, ins[k].addr)
    ensures WellPlaced(isa, ins) && NoGapFall(isa, ins)
  {
    forall i, j | 0 <= i < j < |ins|
      ensures ins[i].addr + isa.size <= ins[j].addr
    {
      SpacedNext(isa, ins, i, j);
      Scaled(1, j - i, isa.size);
    }
    forall c, k | 0 <= c < k < |ins|
      ensures ins[k].addr == ins[c].addr + (k - c) * isa.size
    {
      SpacedNext(isa, ins, c, k);
    }
    forall i: nat | i + 1 < |ins|
      ensures ins[i + 1].addr == ins[i].addr + isa.size
    {
      SpacedNext(isa, ins, i, i + 1);
    }
  }

  lemma SpacedNext(isa: Isa, ins: seq<Instr>, i: nat, j: nat)
    requires Spaced(isa, ins) && i <= j < |ins|
    ensures ins[j].addr == ins[i].addr + (j - i) * isa.size
  {
    assert j * isa.size == i * isa.size + (j - i) * isa.size;
  }

  /** A block start with the number of a block is that block's first instruction. */
  lemma StartIsFirst(ins: seq<Instr>, leaders: set<nat>, i: nat, j: nat)
    requires i < |ins| && j < |ins| && BlockOf(ins, leaders, i) == BlockOf(ins, leaders, j)
    ensures StartsBlock(ins, leaders, i) && StartsBlock(ins, leaders, j) ==> i == j
    ensures EndsBlock(ins, leaders, i) && EndsBlock(ins, leaders, j) ==> i == j
    ensures EndsBlock(ins, leaders, i) ==> j <= i
  {
    if i < j {
      BlockOfGrows(ins, leaders, i, j);
    } else {
      BlockOfGrows(ins, leaders, j, i);
    }
  }

  lemma LeaderStarts(isa: Isa, ins: seq<Instr>, c: nat, j: nat)
    requires WellPlaced(isa, ins) && c < |ins| && j < |ins| && ins[j].addr in LeadersOf(isa, ins[c])
    ensures StartsBlock(ins, Leaders(isa, ins), j)
  {
    PlacedAscending(isa, ins);
    LeadersAre(isa, ins, ins[j].addr);
  }

  /** A block with a control instruction ends with that instruction's last delay slot. */
  lemma ControlEndsBlock(isa: Isa, ins: seq<Instr>, c: nat)
    requires WellPlaced(isa, ins) && c < |ins| && IsControl(ins[c])
    ensures c + isa.delay < |ins| && EndsBlock(ins, Leaders(isa, ins), c + isa.delay)
    ensures BlockOf(ins, Leaders(isa, ins), c) == BlockOf(ins, Leaders(isa, ins), c + isa.delay)
  {
    hide InOrder, OnlyControlSeen, Leaders, IsJumpTarget, Adjacent;
    var leaders, e := Leaders(isa, ins), c + isa.delay;
    PlacedAscending(isa, ins);
    if e + 1 < |ins| {
      BehindIsLeader(isa, ins, c);
    }
    forall k | c < k <= e
      ensures ins[k].addr !in leaders
    {
      SlotsAreNoLeaders(isa, ins, c, k);
    }
    BlockOfGrows(ins, leaders, c, e);
  }

  /** At the end of a block, a control instruction in the block is one that transfers there. */
  lemma ControlTransfers(isa: Isa, ins: seq<Instr>, c: nat, i: nat)
    requires WellPlaced(isa, ins) && c < |ins| && i < |ins| && IsControl(ins[c])
    requires EndsBlock(ins, Leaders(isa, ins), i)
    requires BlockOf(ins, Leaders(isa, ins), c) == BlockOf(ins, Leaders(isa, ins), i)
    ensures Transfers(isa, ins, c, i)
  {
    hide WellPlaced, Leaders, EndsBlock, StartsBlock, BlockOf;
    ControlEndsBlock(isa, ins, c);
    StartIsFirst(ins, Leaders(isa, ins), c + isa.delay, i);
  }

  /** The instructions before `i` in its block are those from the block's first on. */
  lemma WithinBlock(ins: seq<Instr>, leaders: set<nat>, c: nat, i: nat)
    requires c <= i < |ins|
    ensures BlockOf(ins, leaders, c) == BlockOf(ins, leaders, i) <==> FirstOf(ins, leaders, i) <= c
  {
    hide StartsBlock, BlockOf;
    var f := FirstOf(ins, leaders, i);
    BlockOfGrows(ins, leaders, c, i);
    if f <= c {
      BlockOfGrows(ins, leaders, f, c);
    }
  }

  lemma TransferEndsBlock(isa: Isa, ins: seq<Instr>, i: nat)
    requires WellPlaced(isa, ins) && i < |ins|
    ensures (exists c: nat :: Transfers(isa, ins, c, i)) ==> EndsBlock(ins, Leaders(isa, ins), i)
  {
    hide WellPlaced, Leaders, EndsBlock;
    if c: nat :| Transfers(isa, ins, c, i) {
      ControlEndsBlock(isa, ins, c);
    }
  }

  lemma SeenIsControl(isa: Isa, ins: seq<Instr>, c: nat)
    requires WellPlaced(isa, ins) && c < |ins| && SeenControl(ins[c])
    ensures IsControl(ins[c])
  {
  }

  /** The jump flag of a block is set at its end exactly for a transfer that still counts as one. */
  lemma TransferIsControl(isa: Isa, ins: seq<Instr>, i: nat)
    requires WellPlaced(isa, ins) && i < |ins|
    ensures (exists c: nat :: SeenTransfers(isa, ins, c, i)) <==>
            EndsBlock(ins, Leaders(isa, ins), i) && HasControl(ins, Leaders(isa, ins), i)
  {
    hide WellPlaced, Leaders, StartsBlock, BlockOf, EndsBlock, IsControl, SeenControl, NewAddr;
    var leaders := Leaders(isa, ins);
    if c: nat :| SeenTransfers(isa, ins, c, i) {
      ControlEndsBlock(isa, ins, c);
      WithinBlock(ins, leaders, c, i);
      PlacedNewAddr(isa, ins, c);
      assert HasControl(ins, leaders, i);
    } else if EndsBlock(ins, leaders, i) && HasControl(ins, leaders, i) {
      var c: nat :| FirstOf(ins, leaders, i) <= c <= i && NewAddr(ins, c) && SeenControl(ins[c]);
      WithinBlock(ins, leaders, c, i);
      SeenIsControl(isa, ins, c);
      ControlTransfers(isa, ins, c, i);
      assert SeenTransfers(isa, ins, c, i);
    }
  }

  lemma PlacedNewAddr(isa: Isa, ins: seq<Instr>, k: nat)
    requires WellPlaced(isa, ins) && k < |ins|
    ensures NewAddr(ins, k)
  {
    PlacedAscending(isa, ins);
  }

  // ---- The edges of well-placed code

  lemma EdgesAre(isa: Isa, ins: seq<Instr>, e: (NodeRef, NodeRef))
    requires Ascending(ins)
    ensures e in ProgramEdges(isa, ins) <==>
            EdgeBefore(ins, Leaders(isa, ins), Successors(isa, ins), e, |ins|)
  {
    ScanMeaning(ins, Leaders(isa, ins), Successors(isa, ins), |ins|);
  }

  /** A fall-through edge between two blocks joins neighbours without a transfer that counts. */
  lemma FallEdgeMeans(isa: Isa, ins: seq<Instr>, i: nat, j: nat, k: nat)
    requires WellPlaced(isa, ins) && i < |ins| && j < |ins| && k < |ins|
    requires EndsBlock(ins, Leaders(isa, ins), i) && StartsBlock(ins, Leaders(isa, ins), j)
    ensures var leaders := Leaders(isa, ins);
            FallEdge(ins, leaders, (Node(BlockOf(ins, leaders, i)), Node(BlockOf(ins, leaders, j))), k) <==>
            k == j && j == i + 1 && !exists c: nat :: SeenTransfers(isa, ins, c, i)
  {
    var leaders := Leaders(isa, ins);
    hide WellPlaced, Leaders, HasControl, BlockOf, StartsBlock, SeenTransfers;
    TransferIsControl(isa, ins, i);
    if 0 < k && StartsBlock(ins, leaders, k) && BlockOf(ins, leaders, k - 1) == BlockOf(ins, leaders, i)
       && BlockOf(ins, leaders, k) == BlockOf(ins, leaders, j) {
      StartIsFirst(ins, leaders, k - 1, i);
      StartIsFirst(ins, leaders, k, j);
    }
  }

  /** The start of a block is where an edge to the block leads. */
  lemma EdgeTarget(ins: seq<Instr>, leaders: set<nat>, t: nat, j: nat)
    requires j < |ins| && StartsBlock(ins, leaders, j)
    ensures IsNodeAt(ins, leaders, t, Node(BlockOf(ins, leaders, j))) <==> ins[j].addr == t
  {
    hide BlockOf, StartsBlock;
    forall i | 0 <= i < |ins| && StartsBlock(ins, leaders, i) && BlockOf(ins, leaders, i) == BlockOf(ins, leaders, j)
      ensures i == j
    {
      StartIsFirst(ins, leaders, i, j);
    }
  }

  /** What is recorded for an instruction of well-placed code. */
  lemma RecordedTargets(isa: Isa, ins: seq<Instr>, k: nat, t: nat)
    requires WellPlaced(isa, ins) && k < |ins|
    ensures ins[k].addr in Successors(isa, ins) && t in Successors(isa, ins)[ins[k].addr]
            <==> ComesTo(isa, ins, k, t)
  {
    PlacedAscending(isa, ins);
    ComesToTargets(isa, ins, k, t);
    hide Targets, Successors, WellPlaced;
    SuccessorsAre(isa, ins, ins[k].addr);
  }

  /** A successor edge to the block that starts at `j` is a recorded target there. */
  lemma SuccEdgeIs(ins: seq<Instr>, leaders: set<nat>, succs: map<nat, set<nat>>, a: nat, j: nat, k: nat)
    requires j < |ins| && StartsBlock(ins, leaders, j) && k < |ins|
    ensures SuccEdge(ins, leaders, succs, (Node(a), Node(BlockOf(ins, leaders, j))), k) <==>
            NewAddr(ins, k) && a == BlockOf(ins, leaders, k)
            && ins[k].addr in succs && ins[j].addr in succs[ins[k].addr]
  {
    var e := (Node(a), Node(BlockOf(ins, leaders, j)));
    hide StartsBlock, BlockOf, IsNodeAt, NewAddr;
    forall t ensures IsNodeAt(ins, leaders, t, e.1) <==> ins[j].addr == t {
      EdgeTarget(ins, leaders, t, j);
    }
  }

  /** A successor edge between two blocks is a transfer to the start of the second. */
  lemma SuccEdgeMeans(isa: Isa, ins: seq<Instr>, i: nat, j: nat, k: nat)
    requires WellPlaced(isa, ins) && i < |ins| && j < |ins| && k < |ins|
    requires EndsBlock(ins, Leaders(isa, ins), i) && StartsBlock(ins, Leaders(isa, ins), j)
    ensures var leaders := Leaders(isa, ins);
            SuccEdge(ins, leaders, Successors(isa, ins), (Node(BlockOf(ins, leaders, i)), Node(BlockOf(ins, leaders, j))), k)
            <==> Transfers(isa, ins, k, i) && ComesTo(isa, ins, k, ins[j].addr)
  {
    var leaders := Leaders(isa, ins);
    hide WellPlaced, Leaders, Successors, ComesTo, BlockOf, StartsBlock, EndsBlock, SuccEdge, NewAddr;
    SuccEdgeIs(ins, leaders, Successors(isa, ins), BlockOf(ins, leaders, i), j, k);
    PlacedNewAddr(isa, ins, k);
    RecordedTargets(isa, ins, k, ins[j].addr);
    TargetsOfControl(isa, ins, k, ins[j].addr);
    if IsControl(ins[k]) {
      ControlEndsBlock(isa, ins, k);
      if BlockOf(ins, leaders, i) == BlockOf(ins, leaders, k) {
        ControlTransfers(isa, ins, k, i);
      }
    }
  }

  lemma TargetsOfControl(isa: Isa, ins: seq<Instr>, c: nat, t: nat)
    ensures ComesTo(isa, ins, c, t) ==> c < |ins| && IsControl(ins[c])
  {
  }

  /** An edge between two blocks is a step from the end of the first to the start of the second, or
      a stray fall. */
  lemma EdgeMeans(isa: Isa, ins: seq<Instr>, i: nat, j: nat)
    requires WellPlaced(isa, ins) && i < |ins| && j < |ins|
    requires EndsBlock(ins, Leaders(isa, ins), i) && StartsBlock(ins, Leaders(isa, ins), j)
    ensures var leaders := Leaders(isa, ins);
            (Node(BlockOf(ins, leaders, i)), Node(BlockOf(ins, leaders, j))) in ProgramEdges(isa, ins)
            <==> GoesTo(isa, ins, i, j) || StrayFall(isa, ins, i, j)
  {
    var leaders, succs := Leaders(isa, ins), Successors(isa, ins);
    var e := (Node(BlockOf(ins, leaders, i)), Node(BlockOf(ins, leaders, j)));
    PlacedAscending(isa, ins);
    hide WellPlaced, Leaders, Successors, ComesTo, BlockOf, StartsBlock, EndsBlock, FallEdge, SuccEdge, ProgramEdges, Ascending;
    EdgesAre(isa, ins, e);
    FallsIfUnseen(isa, ins, i, j);
    if k :| 0 <= k < |ins| && (FallEdge(ins, leaders, e, k) || SuccEdge(ins, leaders, succs, e, k)) {
      FallEdgeMeans(isa, ins, i, j, k);
      SuccEdgeMeans(isa, ins, i, j, k);
    }
    if c: nat :| Transfers(isa, ins, c, i) && ComesTo(isa, ins, c, ins[j].addr) {
      SuccEdgeMeans(isa, ins, i, j, c);
      assert EdgeBefore(ins, leaders, succs, e, |ins|);
    }
    FallEdgeMeans(isa, ins, i, j, j);
  }

  lemma FallsIfUnseen(isa: Isa, ins: seq<Instr>, i: nat, j: nat)
    requires i < |ins| && j < |ins|
    ensures GoesTo(isa, ins, i, j) || StrayFall(isa, ins, i, j) <==>
            (j == i + 1 && !exists c: nat :: SeenTransfers(isa, ins, c, i))
            || exists c: nat :: Transfers(isa, ins, c, i) && ComesTo(isa, ins, c, ins[j].addr)
  {
    hide ComesTo, SeenControl, IsControl;
    if c: nat :| Transfers(isa, ins, c, i) {
      assert forall b: nat | Transfers(isa, ins, b, i) :: b == c;
      if SeenControl(ins[c]) {
        assert SeenTransfers(isa, ins, c, i);
      }
    }
  }

  /** The graph has every step of the program, and beyond them the stray falls. */
  lemma GraphStepMeans(isa: Isa, ins: seq<Instr>, i: nat, j: nat)
    requires WellPlaced(isa, ins)
    ensures GraphStep(isa, ins, i, j) <==> Step(isa, ins, i, j) || StrayFall(isa, ins, i, j)
  {
    hide WellPlaced, Leaders, ComesTo, ProgramEdges, BlockOf, StartsBlock;
    if i < |ins| && j < |ins| {
      TransferEndsBlock(isa, ins, i);
      if EndsBlock(ins, Leaders(isa, ins), i) {
        if StartsBlock(ins, Leaders(isa, ins), j) {
          EdgeMeans(isa, ins, i, j);
        } else if c: nat :| Transfers(isa, ins, c, i) && ComesTo(isa, ins, c, ins[j].addr) {
          TargetStarts(isa, ins, c, j);
        }
      }
    }
  }

  lemma TargetStarts(isa: Isa, ins: seq<Instr>, c: nat, j: nat)
    requires WellPlaced(isa, ins) && c < |ins| && j < |ins| && ComesTo(isa, ins, c, ins[j].addr)
    ensures StartsBlock(ins, Leaders(isa, ins), j)
  {
    ComesToTargets(isa, ins, c, ins[j].addr);
    LeaderStarts(isa, ins, c, j);
  }

  /** The extracted graph and the program take exactly the same steps if no control instruction
      is hidden that stops and no gap is fallen into. */
  lemma StepsAgree(isa: Isa, ins: seq<Instr>, i: nat, j: nat)
    requires WellPlaced(isa, ins) && NoHiddenStop(isa, ins) && NoGapFall(isa, ins)
    ensures Step(isa, ins, i, j) <==> GraphStep(isa, ins, i, j)
  {
    GraphStepMeans(isa, ins, i, j);
    hide WellPlaced;
    if HiddenFall(isa, ins, i, j) {
      var c: nat :| Transfers(isa, ins, c, i) && !SeenControl(ins[c]);
    }
  }

  lemma OnlyTransfer(isa: Isa, ins: seq<Instr>, c: nat, i: nat, j: nat)
    requires Transfers(isa, ins, c, i) && i < |ins| && j < |ins|
    ensures GoesTo(isa, ins, i, j) <==> ComesTo(isa, ins, c, ins[j].addr)
  {
    hide ComesTo, IsControl;
    assert forall b: nat | Transfers(isa, ins, b, i) :: b == c;
  }

  /** Nothing stray leaves the delay slots of a control instruction that counts as one. */
  lemma SeenIsNotStray(isa: Isa, ins: seq<Instr>, c: nat, i: nat, j: nat)
    requires SeenTransfers(isa, ins, c, i)
    ensures !StrayFall(isa, ins, i, j)
  {
    hide IsControl, SeenControl;
    assert forall b: nat | Transfers(isa, ins, b, i) :: b == c;
  }

  /** The steps of the program behind a control instruction and its delay slots: a call comes back, a return
      leaves, a jump goes to the instruction at its target, a conditional jump to either. */
  lemma StepsByKind(isa: Isa, ins: seq<Instr>, c: nat, j: nat)
    requires InOrder(isa, ins) && c + isa.delay < |ins| && j < |ins|
    ensures var i := c + isa.delay;
            var next := j == i + 1 && ins[j].addr == ins[i].addr + isa.size;
            && (ins[c].kind.Call? ==> (Step(isa, ins, i, j) <==> next))
            && (ins[c].kind.Return? ==> !Step(isa, ins, i, j))
            && (ins[c].kind.Jump? ==> (Step(isa, ins, i, j) <==> ins[j].addr == ins[c].kind.target))
            && (ins[c].kind.CondJump? ==> (Step(isa, ins, i, j) <==> ins[j].addr == ins[c].kind.target || next))
  {
    if IsControl(ins[c]) {
      assert Transfers(isa, ins, c, c + isa.delay);
      NothingBetween(isa, ins, c + isa.delay, j);
      OnlyTransfer(isa, ins, c, c + isa.delay, j);
      hide InOrder, GoesTo, Transfers;
    }
  }

  /** Where no delay slots end, execution goes on to the next instruction, unless there is a gap before it. */
  lemma PlainSteps(isa: Isa, ins: seq<Instr>, i: nat, j: nat)
    requires i < |ins| && j < |ins|
    requires forall c: nat | c < |ins| && c + isa.delay == i :: ins[c].kind.Plain? || ins[c].kind.Nop?
    ensures Step(isa, ins, i, j) <==> j == i + 1 && ins[j].addr == ins[i].addr + isa.size
  {
    if c: nat :| Transfers(isa, ins, c, i) {
      assert false;
    }
  }

  /** Behind a hidden control instruction that stops, the graph has a step that the program never takes. */
  lemma HiddenStopIsStray(isa: Isa, ins: seq<Instr>, c: nat)
    requires WellPlaced(isa, ins) && c + isa.delay + 1 < |ins| && IsControl(ins[c]) && !SeenControl(ins[c])
    requires !ComesTo(isa, ins, c, ins[c + isa.delay + 1].addr)
    ensures var i := c + isa.delay; !Step(isa, ins, i, i + 1) && GraphStep(isa, ins, i, i + 1)
    ensures !NoHiddenStop(isa, ins)
  {
    var i := c + isa.delay;
    hide WellPlaced, ComesTo, IsControl, SeenControl, GraphStep, GoesTo;
    assert Transfers(isa, ins, c, i);
    assert HiddenFall(isa, ins, i, i + 1);
    hide Transfers, HiddenFall;
    OnlyTransfer(isa, ins, c, i, i + 1);
    GraphStepMeans(isa, ins, i, i + 1);
  }

  /** Where what stands behind the delay slots is no leader, a block goes on where no step does. */
  lemma NoLeaderIsStray(isa: Isa, ins: seq<Instr>, c: nat)
    requires InOrder(isa, ins) && HasDelaySlots(isa, ins) && c + isa.delay + 1 < |ins| && IsControl(ins[c])
    requires !Adjacent(isa, ins, c + isa.delay, c + isa.delay + 1) && !IsJumpTarget(ins, ins[c + isa.delay + 1].addr)
    ensures var i := c + isa.delay; !Step(isa, ins, i, i + 1) && GraphStep(isa, ins, i, i + 1)
  {
    var i := c + isa.delay;
    assert Transfers(isa, ins, c, i);
    BehindIsLeader(isa, ins, c);
    assert !JumpsTo(ins[c], ins[i + 1].addr);
    hide InOrder, HasDelaySlots, Leaders, Transfers, GoesTo, ProgramEdges;
    OnlyTransfer(isa, ins, c, i, i + 1);
  }

  /** Exactly then: otherwise there is an edge or a block that goes on where no step does. */
  lemma StepsAgreeIffNothingStray(isa: Isa, ins: seq<Instr>)
    requires InOrder(isa, ins) && HasDelaySlots(isa, ins) && OnlyControlSeen(ins)
    ensures (forall i, j :: Step(isa, ins, i, j) <==> GraphStep(isa, ins, i, j)) <==>
            LeaderBehind(isa, ins) && NoHiddenStop(isa, ins) && NoGapFall(isa, ins)
  {
    if LeaderBehind(isa, ins) && NoHiddenStop(isa, ins) && NoGapFall(isa, ins) {
      assert WellPlaced(isa, ins);
      hide WellPlaced, NoHiddenStop, NoGapFall, LeaderBehind, Step, GraphStep;
      forall i, j ensures Step(isa, ins, i, j) <==> GraphStep(isa, ins, i, j) {
        StepsAgree(isa, ins, i, j);
      }
    }
    if forall i, j :: Step(isa, ins, i, j) <==> GraphStep(isa, ins, i, j) {
      AgreeingHasLeaders(isa, ins);
      AgreeingHasNoStray(isa, ins);
    }
  }

  lemma AgreeingHasLeaders(isa: Isa, ins: seq<Instr>)
    requires InOrder(isa, ins) && HasDelaySlots(isa, ins)
    requires forall i, j :: Step(isa, ins, i, j) <==> GraphStep(isa, ins, i, j)
    ensures LeaderBehind(isa, ins)
  {
    hide InOrder, HasDelaySlots, Step, GraphStep, IsControl, Adjacent, IsJumpTarget;
    forall c: nat | c + isa.delay + 1 < |ins| && IsControl(ins[c])
      ensures Adjacent(isa, ins, c + isa.delay, c + isa.delay + 1) || IsJumpTarget(ins, ins[c + isa.delay + 1].addr)
    {
      if !Adjacent(isa, ins, c + isa.delay, c + isa.delay + 1) && !IsJumpTarget(ins, ins[c + isa.delay + 1].addr) {
        NoLeaderIsStray(isa, ins, c);
      }
    }
  }

  lemma AgreeingHasNoStray(isa: Isa, ins: seq<Instr>)
    requires WellPlaced(isa, ins) && forall i, j :: Step(isa, ins, i, j) <==> GraphStep(isa, ins, i, j)
    ensures NoHiddenStop(isa, ins) && NoGapFall(isa, ins)
  {
    hide WellPlaced, GraphStep, ComesTo, IsControl, SeenControl;
    forall c: nat | c < |ins| && IsControl(ins[c]) && !SeenControl(ins[c]) && c + isa.delay + 1 < |ins|
      ensures ComesTo(isa, ins, c, ins[c + isa.delay + 1].addr)
    {
      if !ComesTo(isa, ins, c, ins[c + isa.delay + 1].addr) {
        HiddenStopIsStray(isa, ins, c);
      }
    }
    forall i, j
      ensures !GapFall(isa, ins, i, j)
    {
      GraphStepMeans(isa, ins, i, j);
    }
  }

  /** A transfer at `i` to an address where the function has no instruction. */
  ghost predicate LeavesFunction(isa: Isa, ins: seq<Instr>, i: nat, t: nat) {
    && (exists c: nat :: Transfers(isa, ins, c, i) && ComesTo(isa, ins, c, t))
    && forall j | 0 <= j < |ins| :: ins[j].addr != t
  }

  /** An edge that leaves the end of a block at `i`: a step or stray fall to the start of a block,
      or, to the null node, a transfer out of the function. */
  ghost predicate IsStepEdge(isa: Isa, ins: seq<Instr>, e: (NodeRef, NodeRef), i: nat) {
    var leaders := Leaders(isa, ins);
    && i < |ins| && EndsBlock(ins, leaders, i) && e.0 == Node(BlockOf(ins, leaders, i))
    && match e.1
       case Node(b) => exists j :: (Step(isa, ins, i, j) || StrayFall(isa, ins, i, j))
                                   && StartsBlock(ins, leaders, j) && BlockOf(ins, leaders, j) == b
       case Null => exists t :: LeavesFunction(isa, ins, i, t)
  }

  lemma FallEdgeIsAStep(isa: Isa, ins: seq<Instr>, e: (NodeRef, NodeRef), k: nat)
    requires WellPlaced(isa, ins) && k < |ins| && e in ProgramEdges(isa, ins) && FallEdge(ins, Leaders(isa, ins), e, k)
    ensures k > 0 && IsStepEdge(isa, ins, e, k - 1)
  {
    hide WellPlaced, Leaders, BlockOf, ProgramEdges, HasControl;
    EdgeMeans(isa, ins, k - 1, k);
    assert Step(isa, ins, k - 1, k) || StrayFall(isa, ins, k - 1, k);
  }

  lemma SuccEdgeIsAStep(isa: Isa, ins: seq<Instr>, e: (NodeRef, NodeRef), k: nat)
    requires WellPlaced(isa, ins) && k < |ins| && SuccEdge(ins, Leaders(isa, ins), Successors(isa, ins), e, k)
    ensures IsStepEdge(isa, ins, e, k + isa.delay)
  {
    var leaders, succs := Leaders(isa, ins), Successors(isa, ins);
    hide WellPlaced, Leaders, Successors, ComesTo, BlockOf, StartsBlock, EndsBlock, Step, IsControl;
    var t :| t in succs[ins[k].addr] && IsNodeAt(ins, leaders, t, e.1);
    RecordedTargets(isa, ins, k, t);
    TargetsOfControl(isa, ins, k, t);
    ControlEndsBlock(isa, ins, k);
    TransferIsStep(isa, ins, k, k + isa.delay, t);
  }

  /** Every edge of the extracted graph is a step of the program or a stray fall. */
  lemma EveryEdgeIsAStep(isa: Isa, ins: seq<Instr>, e: (NodeRef, NodeRef))
    requires WellPlaced(isa, ins) && e in ProgramEdges(isa, ins)
    ensures exists i :: IsStepEdge(isa, ins, e, i)
  {
    var leaders, succs := Leaders(isa, ins), Successors(isa, ins);
    PlacedAscending(isa, ins);
    EdgesAre(isa, ins, e);
    hide WellPlaced, FallEdge, SuccEdge, ProgramEdges, IsStepEdge;
    var k :| 0 <= k < |ins| && (FallEdge(ins, leaders, e, k) || SuccEdge(ins, leaders, succs, e, k));
    if FallEdge(ins, leaders, e, k) {
      FallEdgeIsAStep(isa, ins, e, k);
    } else {
      SuccEdgeIsAStep(isa, ins, e, k);
    }
  }

  /** A transfer steps to the block that starts at its target, if the function has one there. */
  lemma TransferIsStep(isa: Isa, ins: seq<Instr>, c: nat, i: nat, t: nat)
    requires WellPlaced(isa, ins) && i < |ins| && Transfers(isa, ins, c, i) && ComesTo(isa, ins, c, t)
    ensures forall j | 0 <= j < |ins| && ins[j].addr == t :: StartsBlock(ins, Leaders(isa, ins), j) && Step(isa, ins, i, j)
    ensures (forall j | 0 <= j < |ins| :: ins[j].addr != t) ==> LeavesFunction(isa, ins, i, t)
  {
    hide WellPlaced, Leaders;
    forall j | 0 <= j < |ins| && ins[j].addr == t
      ensures StartsBlock(ins, Leaders(isa, ins), j) && Step(isa, ins, i, j)
    {
      TargetStarts(isa, ins, c, j);
    }
  }
}
