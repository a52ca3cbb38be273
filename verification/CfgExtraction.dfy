/** What it means to cut an instruction list into basic blocks, on values. */
module ExtractionSpec {
  /** Instructions as classified by the architecture, padding apart; a jump carries its destination. */
  datatype Kind = Plain | Nop | Call | Return | Jump(target: nat) | CondJump(target: nat)

  /** An entry of the instruction list. `kind` is that of the instruction it was read as, `seen` what
      the entry itself counts as; they differ in the expansion of a block transfer. */
  datatype Instr = Instr(addr: nat, kind: Kind, seen: Kind)

  /** Instruction size in bytes, number of delay-slot instructions, and whether the code is for ARM. */
  datatype Isa = Isa(size: nat, delay: nat, arm: bool)

  predicate IsControl(ins: Instr) {
    !ins.kind.Plain? && !ins.kind.Nop?
  }

  /** The entry counts as a control instruction when edges are made. */
  predicate SeenControl(ins: Instr) {
    !ins.seen.Plain? && !ins.seen.Nop?
  }

  /** The address after a control instruction and its delay slots. */
  function NextAddr(isa: Isa, ins: Instr): nat {
    ins.addr + isa.size + isa.delay * isa.size
  }

  /** Where control can go after `ins` and its delay slots. A call comes back. */
  function Targets(isa: Isa, ins: Instr): set<nat> {
    match ins.kind
    case Plain => {}
    case Nop => {}
    case Call => {NextAddr(isa, ins)}
    case Return => {}
    case Jump(t) => {t}
    case CondJump(t) => {NextAddr(isa, ins), t}
  }

  /** The leaders that `ins` gives rise to. */
  function LeadersOf(isa: Isa, ins: Instr): set<nat> {
    if IsControl(ins) then Targets(isa, ins) + {NextAddr(isa, ins)} else {}
  }

  // ---- Blocks

  /** The instruction at `i` is not another entry of the one before. */
  predicate NewAddr(ins: seq<Instr>, i: nat)
    requires i < |ins|
  {
    i == 0 || ins[i].addr != ins[i - 1].addr
  }

  predicate StartsBlock(ins: seq<Instr>, leaders: set<nat>, i: nat)
    requires i < |ins|
  {
    i == 0 || (NewAddr(ins, i) && ins[i].addr in leaders)
  }

  /** The number of the block that instruction `i` is in. */
  ghost function BlockOf(ins: seq<Instr>, leaders: set<nat>, i: nat): nat
    requires i < |ins|
  {
    if i == 0 then 0 else BlockOf(ins, leaders, i - 1) + if StartsBlock(ins, leaders, i) then 1 else 0
  }

  predicate EndsBlock(ins: seq<Instr>, leaders: set<nat>, i: nat)
    requires i < |ins|
  {
    i + 1 == |ins| || StartsBlock(ins, leaders, i + 1)
  }

  ghost predicate Ascending(ins: seq<Instr>) {
    && (forall i | 0 <= i < |ins| :: ins[i].addr > 0)
    && (forall i, j | 0 <= i < j < |ins| :: ins[i].addr <= ins[j].addr)
  }

  lemma {:induction false} BlockOfGrows(ins: seq<Instr>, leaders: set<nat>, i: nat, j: nat)
    requires i <= j < |ins|
    ensures BlockOf(ins, leaders, i) <= BlockOf(ins, leaders, j)
    ensures BlockOf(ins, leaders, i) == BlockOf(ins, leaders, j) <==>
            forall k | i < k <= j :: !StartsBlock(ins, leaders, k)
  {
    if i < j {
      BlockOfGrows(ins, leaders, i, j - 1);
    }
  }

  /** The first instruction of the block of `i`. */
  ghost function FirstOf(ins: seq<Instr>, leaders: set<nat>, i: nat): (f: nat)
    requires i < |ins|
    ensures f <= i && StartsBlock(ins, leaders, f)
    ensures BlockOf(ins, leaders, f) == BlockOf(ins, leaders, i)
  {
    if StartsBlock(ins, leaders, i) then i else FirstOf(ins, leaders, i - 1)
  }

  lemma StartIsHigher(ins: seq<Instr>, leaders: set<nat>, i: nat, j: nat)
    requires Ascending(ins) && i < j < |ins| && StartsBlock(ins, leaders, j)
    ensures ins[i].addr < ins[j].addr
  {
    assert ins[i].addr <= ins[j - 1].addr <= ins[j].addr;
  }

  // ---- Edges

  datatype NodeRef = Null | Node(index: nat)

  /** The node created for address `a`, or the null pointer. */
  ghost predicate IsNodeAt(ins: seq<Instr>, leaders: set<nat>, a: nat, r: NodeRef) {
    match r
    case Null => forall j | 0 <= j < |ins| && StartsBlock(ins, leaders, j) :: ins[j].addr != a
    case Node(b) => exists j | 0 <= j < |ins| && StartsBlock(ins, leaders, j) :: ins[j].addr == a && BlockOf(ins, leaders, j) == b
  }

  /** Some entry of the block of `i`, up to `i` and first of its address, counts as a control instruction. */
  ghost predicate HasControl(ins: seq<Instr>, leaders: set<nat>, i: nat)
    requires i < |ins|
  {
    exists c | FirstOf(ins, leaders, i) <= c <= i :: NewAddr(ins, c) && SeenControl(ins[c])
  }

  /** Falling into the block that starts at `i`. */
  ghost predicate FallEdge(ins: seq<Instr>, leaders: set<nat>, e: (NodeRef, NodeRef), i: nat)
    requires i < |ins|
  {
    && 0 < i && StartsBlock(ins, leaders, i) && !HasControl(ins, leaders, i - 1)
    && e == (Node(BlockOf(ins, leaders, i - 1)), Node(BlockOf(ins, leaders, i)))
  }

  /** A transfer of the instruction at `i` to one of its recorded successors. */
  ghost predicate SuccEdge(ins: seq<Instr>, leaders: set<nat>, succs: map<nat, set<nat>>, e: (NodeRef, NodeRef), i: nat)
    requires i < |ins|
  {
    && NewAddr(ins, i) && ins[i].addr in succs
    && e.0 == Node(BlockOf(ins, leaders, i))
    && exists t | t in succs[ins[i].addr] :: IsNodeAt(ins, leaders, t, e.1)
  }

  /** The edges that the first `k` instructions give rise to. */
  ghost predicate EdgeBefore(ins: seq<Instr>, leaders: set<nat>, succs: map<nat, set<nat>>, e: (NodeRef, NodeRef), k: nat)
    requires k <= |ins|
  {
    exists i | 0 <= i < k :: FallEdge(ins, leaders, e, i) || SuccEdge(ins, leaders, succs, e, i)
  }

  // ---- What is recorded while the instructions are read

  ghost function Leaders(isa: Isa, ins: seq<Instr>): set<nat> {
    if ins == [] then {} else Leaders(isa, ins[..|ins| - 1]) + LeadersOf(isa, ins[|ins| - 1])
  }

  function AddSuccessors(succs: map<nat, set<nat>>, addr: nat, targets: set<nat>): map<nat, set<nat>> {
    succs[addr := (if addr in succs then succs[addr] else {}) + targets]
  }

  ghost function Successors(isa: Isa, ins: seq<Instr>): map<nat, set<nat>> {
    if ins == [] then map[]
    else
      var before, last := Successors(isa, ins[..|ins| - 1]), ins[|ins| - 1];
      if Targets(isa, last) == {} then before else AddSuccessors(before, last.addr, Targets(isa, last))
  }

  lemma OneMoreInstruction(isa: Isa, ins: seq<Instr>, x: Instr)
    ensures Leaders(isa, ins + [x]) == Leaders(isa, ins) + LeadersOf(isa, x)
    ensures Successors(isa, ins + [x]) ==
              if Targets(isa, x) == {} then Successors(isa, ins)
              else AddSuccessors(Successors(isa, ins), x.addr, Targets(isa, x))
  {
    assert (ins + [x])[..|ins + [x]| - 1] == ins;
  }

  lemma AddTwice(succs: map<nat, set<nat>>, addr: nat, s: nat, t: nat)
    ensures AddSuccessors(AddSuccessors(succs, addr, {s}), addr, {t}) == AddSuccessors(succs, addr, {s, t})
  {
    var known := if addr in succs then succs[addr] else {};
    assert known + {s} + {t} == known + {s, t};
  }

  /** The blocks of `ins`: `firsts` are the positions where they start. */
  ghost predicate AreBlocks(ins: seq<Instr>, leaders: set<nat>, k: nat, nodes: seq<seq<Instr>>, firsts: seq<nat>)
    requires k <= |ins|
  {
    && |nodes| == |firsts| == (if k == 0 then 0 else BlockOf(ins, leaders, k - 1) + 1)
    && (forall b | 0 <= b < |firsts| ::
          && firsts[b] < k && StartsBlock(ins, leaders, firsts[b]) && BlockOf(ins, leaders, firsts[b]) == b
          && firsts[b] <= BlockEnd(firsts, b, k) <= k
          && nodes[b] == ins[firsts[b]..BlockEnd(firsts, b, k)])
    && (forall i | 0 <= i < k && StartsBlock(ins, leaders, i) ::
          BlockOf(ins, leaders, i) < |firsts| && firsts[BlockOf(ins, leaders, i)] == i)
  }

  lemma NewBlock(ins: seq<Instr>, leaders: set<nat>, k: nat, nodes: seq<seq<Instr>>, firsts: seq<nat>)
    requires k < |ins| && AreBlocks(ins, leaders, k, nodes, firsts) && StartsBlock(ins, leaders, k)
    ensures AreBlocks(ins, leaders, k + 1, nodes + [[ins[k]]], firsts + [k])
  {
    assert BlockOf(ins, leaders, k) == |firsts|;
    hide StartsBlock, BlockOf;
    var after := firsts + [k];
    forall b | 0 <= b < |after|
      ensures after[b] < k + 1 && StartsBlock(ins, leaders, after[b]) && BlockOf(ins, leaders, after[b]) == b
      ensures after[b] <= BlockEnd(after, b, k + 1) <= k + 1
      ensures (nodes + [[ins[k]]])[b] == ins[after[b]..BlockEnd(after, b, k + 1)]
    {
      if b < |firsts| {
        assert BlockEnd(after, b, k + 1) == BlockEnd(firsts, b, k);
      }
    }
  }

  lemma SameBlock(ins: seq<Instr>, leaders: set<nat>, k: nat, nodes: seq<seq<Instr>>, firsts: seq<nat>)
    requires k < |ins| && AreBlocks(ins, leaders, k, nodes, firsts) && !StartsBlock(ins, leaders, k)
    ensures |nodes| > 0
    ensures AreBlocks(ins, leaders, k + 1, nodes[|nodes| - 1 := nodes[|nodes| - 1] + [ins[k]]], firsts)
  {
    assert k > 0 && BlockOf(ins, leaders, k) == BlockOf(ins, leaders, k - 1) == |nodes| - 1;
    hide StartsBlock, BlockOf;
    var last := |nodes| - 1;
    var after := nodes[last := nodes[last] + [ins[k]]];
    forall b | 0 <= b < |firsts|
      ensures firsts[b] <= BlockEnd(firsts, b, k + 1) <= k + 1
      ensures after[b] == ins[firsts[b]..BlockEnd(firsts, b, k + 1)]
    {
      if b < last {
        assert BlockEnd(firsts, b, k + 1) == BlockEnd(firsts, b, k);
      }
    }
  }

  /** The node pointer that the map gives for an address. */
  function Lookup(table: map<nat, nat>, a: nat): NodeRef {
    if a in table then Node(table[a]) else Null
  }

  /** Instruction `x` put into a new block, or at the end of the last one. */
  function Place(nodes: seq<seq<Instr>>, startsBlock: bool, x: Instr): seq<seq<Instr>>
    requires !startsBlock ==> |nodes| > 0
  {
    if startsBlock then nodes + [[x]] else nodes[|nodes| - 1 := nodes[|nodes| - 1] + [x]]
  }

  /** The blocks of the first `k` instructions. */
  ghost function Blocks(ins: seq<Instr>, leaders: set<nat>, k: nat): (nodes: seq<seq<Instr>>)
    requires k <= |ins|
    ensures k > 0 ==>
              && |nodes| > 0
              && var last := nodes[|nodes| - 1]; |last| > 0 && last[|last| - 1] == ins[k - 1]
  {
    if k == 0 then [] else Place(Blocks(ins, leaders, k - 1), StartsBlock(ins, leaders, k - 1), ins[k - 1])
  }

  /** Where they start. */
  ghost function Firsts(ins: seq<Instr>, leaders: set<nat>, k: nat): seq<nat>
    requires k <= |ins|
  {
    if k == 0 then []
    else if StartsBlock(ins, leaders, k - 1) then Firsts(ins, leaders, k - 1) + [k - 1]
    else Firsts(ins, leaders, k - 1)
  }

  /** Their address map. */
  ghost function Table(ins: seq<Instr>, leaders: set<nat>, k: nat): map<nat, nat>
    requires k <= |ins|
  {
    if k == 0 then map[]
    else if StartsBlock(ins, leaders, k - 1)
    then Table(ins, leaders, k - 1)[ins[k - 1].addr := |Blocks(ins, leaders, k - 1)|]
    else Table(ins, leaders, k - 1)
  }

  lemma {:induction false} BlocksAreBlocks(ins: seq<Instr>, leaders: set<nat>, k: nat)
    requires k <= |ins|
    ensures AreBlocks(ins, leaders, k, Blocks(ins, leaders, k), Firsts(ins, leaders, k))
  {
    NoBlocks(ins, leaders);
    hide AreBlocks, StartsBlock, BlockOf;
    if k > 0 {
      BlocksAreBlocks(ins, leaders, k - 1);
      var nodes, firsts := Blocks(ins, leaders, k - 1), Firsts(ins, leaders, k - 1);
      if StartsBlock(ins, leaders, k - 1) {
        NewBlock(ins, leaders, k - 1, nodes, firsts);
      } else {
        SameBlock(ins, leaders, k - 1, nodes, firsts);
      }
    }
  }

  lemma NoBlocks(ins: seq<Instr>, leaders: set<nat>)
    ensures AreBlocks(ins, leaders, 0, [], [])
  {
  }

  lemma {:induction false} BlocksCount(ins: seq<Instr>, leaders: set<nat>, k: nat)
    requires 0 < k <= |ins|
    ensures |Blocks(ins, leaders, k)| == BlockOf(ins, leaders, k - 1) + 1
  {
    if k > 1 {
      BlocksCount(ins, leaders, k - 1);
    }
  }

  /** The address of a block start leads to its block. */
  lemma {:induction false} TableFinds(ins: seq<Instr>, leaders: set<nat>, k: nat, j: nat)
    requires Ascending(ins) && j < k <= |ins| && StartsBlock(ins, leaders, j)
    ensures ins[j].addr in Table(ins, leaders, k)
    ensures Table(ins, leaders, k)[ins[j].addr] == BlockOf(ins, leaders, j)
  {
    if j == k - 1 {
      if j > 0 {
        BlocksCount(ins, leaders, j);
      }
    } else {
      TableFinds(ins, leaders, k - 1, j);
      if StartsBlock(ins, leaders, k - 1) {
        StartIsHigher(ins, leaders, j, k - 1);
      }
    }
  }

  /** Only addresses of block starts lead anywhere. */
  lemma {:induction false} TableOnlyStarts(ins: seq<Instr>, leaders: set<nat>, k: nat, a: nat) returns (j: nat)
    requires Ascending(ins) && k <= |ins| && a in Table(ins, leaders, k)
    ensures j < k && StartsBlock(ins, leaders, j) && ins[j].addr == a
  {
    if StartsBlock(ins, leaders, k - 1) && a == ins[k - 1].addr {
      j := k - 1;
    } else {
      j := TableOnlyStarts(ins, leaders, k - 1, a);
    }
  }

  /** The finished map finds exactly the node created for an address. */
  lemma LookupIsNodeAt(ins: seq<Instr>, leaders: set<nat>, a: nat, r: NodeRef)
    requires Ascending(ins)
    ensures IsNodeAt(ins, leaders, a, r) <==> r == Lookup(Table(ins, leaders, |ins|), a)
  {
    var table := Table(ins, leaders, |ins|);
    forall j | 0 <= j < |ins| && StartsBlock(ins, leaders, j)
      ensures Lookup(table, ins[j].addr) == Node(BlockOf(ins, leaders, j))
    {
      TableFinds(ins, leaders, |ins|, j);
    }
    if a in table {
      var j := TableOnlyStarts(ins, leaders, |ins|, a);
    }
  }

  // ---- The second scan

  /** The second scan: the start of the current block, whether it has a jump, and the edges so far. */
  datatype EdgeScan = EdgeScan(curbb: nat, jump: bool, edges: set<(NodeRef, NodeRef)>)

  ghost function EnterBlock(table: map<nat, nat>, s: EdgeScan, addr: nat): EdgeScan {
    EdgeScan(addr, false,
             s.edges + if !s.jump && s.curbb != 0 then {(Lookup(table, s.curbb), Lookup(table, addr))} else {})
  }

  ghost function NodesOf(table: map<nat, nat>, ncur: NodeRef, addrs: set<nat>): set<(NodeRef, NodeRef)> {
    set t | t in addrs :: (ncur, Lookup(table, t))
  }

  ghost function LinkEdges(succs: map<nat, set<nat>>, table: map<nat, nat>, addr: nat, ncur: NodeRef): set<(NodeRef, NodeRef)> {
    if addr in succs then NodesOf(table, ncur, succs[addr]) else {}
  }

  lemma LinkOneMore(table: map<nat, nat>, ncur: NodeRef, done: set<nat>, t: nat)
    ensures NodesOf(table, ncur, done + {t}) == NodesOf(table, ncur, done) + {(ncur, Lookup(table, t))}
  {
  }

  lemma NothingLinked(table: map<nat, nat>, ncur: NodeRef)
    ensures NodesOf(table, ncur, {}) == {}
  {
  }

  ghost function ScanOne(table: map<nat, nat>, succs: map<nat, set<nat>>, s: EdgeScan, x: Instr, starts: bool): EdgeScan {
    var entered := if starts then EnterBlock(table, s, x.addr) else s;
    EdgeScan(entered.curbb, entered.jump || SeenControl(x),
             entered.edges + LinkEdges(succs, table, x.addr, Lookup(table, entered.curbb)))
  }

  ghost function NextScan(ins: seq<Instr>, leaders: set<nat>, table: map<nat, nat>, succs: map<nat, set<nat>>, s: EdgeScan, i: nat): EdgeScan
    requires i < |ins|
  {
    if NewAddr(ins, i) then ScanOne(table, succs, s, ins[i], StartsBlock(ins, leaders, i)) else s
  }

  ghost function ScanEdges(ins: seq<Instr>, leaders: set<nat>, table: map<nat, nat>, succs: map<nat, set<nat>>, k: nat): EdgeScan
    requires k <= |ins|
  {
    if k == 0 then EdgeScan(0, false, {})
    else NextScan(ins, leaders, table, succs, ScanEdges(ins, leaders, table, succs, k - 1), k - 1)
  }

  ghost function BlockEnd(firsts: seq<nat>, b: nat, k: nat): nat {
    if b + 1 < |firsts| then firsts[b + 1] else k
  }

  /** The edges that the extractor creates for `ins`. */
  ghost function ProgramEdges(isa: Isa, ins: seq<Instr>): set<(NodeRef, NodeRef)> {
    var leaders := Leaders(isa, ins);
    ScanEdges(ins, leaders, Table(ins, leaders, |ins|), Successors(isa, ins), |ins|).edges
  }

  // ---- Instructions of several entries

  /** An instruction as read, and what each of its list entries counts as. Only the expansion of a
      block transfer makes more than one entry. */
  datatype Reading = Reading(addr: nat, kind: Kind, copies: seq<Kind>)

  function EntriesOf(x: Reading): (e: seq<Instr>)
    ensures |e| == |x.copies|
  {
    seq(|x.copies|, k requires 0 <= k < |x.copies| => Instr(x.addr, x.kind, x.copies[k]))
  }

  /** The instruction list. */
  function Entries(code: seq<Reading>): seq<Instr> {
    if code == [] then [] else Entries(code[..|code| - 1]) + EntriesOf(code[|code| - 1])
  }

  /** Every instruction has an entry, padding has no more than one, and no two instructions have one address. */
  ghost predicate Separate(code: seq<Reading>) {
    && (forall k | 0 <= k < |code| :: |code[k].copies| > 0 && (code[k].copies[0].Nop? ==> |code[k].copies| == 1))
    && forall j, k | 0 <= j < k < |code| :: code[j].addr != code[k].addr
  }

  /** The first entry of each instruction. */
  ghost function FirstEntries(code: seq<Reading>): (heads: seq<Instr>)
    requires Separate(code)
    ensures |heads| == |code|
  {
    seq(|code|, k requires 0 <= k < |code| => Instr(code[k].addr, code[k].kind, code[k].copies[0]))
  }

  /** What is recorded for an instruction is recorded once, however many entries it has. */
  lemma {:induction false} RecordedOnce(isa: Isa, ins: seq<Instr>, x: Reading, k: nat)
    requires 0 < k <= |x.copies|
    ensures var after, one := ins + EntriesOf(x)[..k], EntriesOf(x)[0];
            && Leaders(isa, after) == Leaders(isa, ins) + LeadersOf(isa, one)
            && Successors(isa, after) == if Targets(isa, one) == {} then Successors(isa, ins)
                                         else AddSuccessors(Successors(isa, ins), x.addr, Targets(isa, one))
  {
    var e := EntriesOf(x);
    SameRecords(isa, e[0], e[k - 1]);
    hide Targets, LeadersOf, Leaders, Successors;
    assert e[..k] == e[..k - 1] + [e[k - 1]];
    assert ins + e[..k] == (ins + e[..k - 1]) + [e[k - 1]];
    OneMoreInstruction(isa, ins + e[..k - 1], e[k - 1]);
    if k == 1 {
      assert ins + e[..0] == ins;
    } else {
      RecordedOnce(isa, ins, x, k - 1);
    }
  }

  lemma SameRecords(isa: Isa, x: Instr, y: Instr)
    requires x.addr == y.addr && x.kind == y.kind
    ensures Targets(isa, x) == Targets(isa, y) && LeadersOf(isa, x) == LeadersOf(isa, y)
  {
  }

  /** Where the entries of instruction `k` start. */
  function Position(code: seq<Reading>, k: nat): nat
    requires k <= |code|
  {
    |Entries(code[..k])|
  }

  lemma {:induction false} EntryAt(code: seq<Reading>, k: nat, c: nat)
    requires k < |code| && c < |code[k].copies|
    ensures Position(code, k + 1) == Position(code, k) + |code[k].copies| <= |Entries(code)|
    ensures Entries(code)[Position(code, k) + c] == EntriesOf(code[k])[c]
  {
    var init := code[..|code| - 1];
    assert code[..k + 1][..k] == code[..k];
    if k == |code| - 1 {
      assert code[..k + 1] == code;
    } else {
      EntryAt(init, k, c);
      assert init[..k] == code[..k] && init[..k + 1] == code[..k + 1];
    }
  }
}

/** `BuildCfg`'s reading of one function and `build_heptane_cfg`. */
module CfgExtraction {
  import opened ExtractionSpec
  import opened Cleaning
  import opened FlowGraph

  /** The origins of the edges to block `b`, in the order of the edges' creation. */
  function PredecessorsIn(edges: seq<(NodeRef, NodeRef)>, b: nat): (p: seq<nat>)
    ensures forall a: nat :: a in p <==> (NodeRef.Node(a), NodeRef.Node(b)) in edges
  {
    if edges == [] then []
    else
      var (origin, destination) := edges[|edges| - 1];
      PredecessorsIn(edges[..|edges| - 1], b)
      + if origin.Node? && destination == NodeRef.Node(b) then [origin.index] else []
  }

  /** The nodes in the order of their creation. */
  function Listed(count: nat): (l: seq<nat>)
    ensures |l| == count && forall b | 0 <= b < count :: l[b] == b
  {
    seq(count, b => b)
  }

  /** The analyses' view of a graph: its nodes, the first one created as the start, and the
      predecessors of each. */
  ghost predicate IsCfg(g: Graph, count: nat, edges: seq<(NodeRef, NodeRef)>) {
    && g.nodes == Listed(count) && g.start == 0
    && (forall b: nat :: b in g.preds <==> b < count)
    && forall b: nat | b < count :: g.preds[b] == PredecessorsIn(edges, b)
  }

  class CfgBuilder {
    const isa: Isa
    var instructions: seq<Instr>
    var bbStartAddr: set<nat>
    var succs: map<nat, set<nat>>
    /** The nodes of the graph, with their instructions, and its edges, in creation order. */
    var nodes: seq<seq<Instr>>
    var edges: seq<(NodeRef, NodeRef)>
    /** The node created for each block address; an absent address reads as the null pointer. */
    var addressToNode: map<nat, nat>

    constructor (i: Isa)
      ensures isa == i && instructions == [] && bbStartAddr == {} && succs == map[] && nodes == [] && edges == []
    {
      isa := i;
      instructions, bbStartAddr, succs := [], {}, map[];
      nodes, edges, addressToNode := [], [], map[];
    }

    ghost predicate Collected()
      reads this
    {
      bbStartAddr == Leaders(isa, instructions) && succs == Successors(isa, instructions)
    }

    /** Appends the entries of one instruction and records its leaders and successors. */
    method ReadInstruction(instr: Reading)
      requires Collected() && |instr.copies| > 0
      modifies `instructions, `bbStartAddr, `succs
      ensures Collected() && instructions == old(instructions) + EntriesOf(instr)
      ensures |instructions| == |old(instructions)| + |instr.copies|
      ensures forall k | 0 <= k < |instr.copies| ::
                instructions[|old(instructions)| + k] == Instr(instr.addr, instr.kind, instr.copies[k])
    {
      hide Leaders, Successors, LeadersOf, Targets, AddSuccessors;
      RecordedOnce(isa, instructions, instr, |instr.copies|);
      assert EntriesOf(instr)[..|instr.copies|] == EntriesOf(instr);
      instructions := instructions + EntriesOf(instr);
      RecordTargets(instr);
    }

    /** Records the leaders and successors of one instruction. */
    method RecordTargets(instr: Reading)
      requires |instr.copies| > 0
      modifies `bbStartAddr, `succs
      ensures bbStartAddr == old(bbStartAddr) + LeadersOf(isa, EntriesOf(instr)[0])
      ensures succs == if Targets(isa, EntriesOf(instr)[0]) == {} then old(succs)
                       else AddSuccessors(old(succs), instr.addr, Targets(isa, EntriesOf(instr)[0]))
    {
      hide AddSuccessors;
      var addrNextBb := instr.addr + isa.size + isa.delay * isa.size;
      match instr.kind {
        case Call =>
          bbStartAddr := bbStartAddr + {addrNextBb};
          succs := AddSuccessors(succs, instr.addr, {addrNextBb});
        case Return =>
          bbStartAddr := bbStartAddr + {addrNextBb};
        case Jump(target) =>
          bbStartAddr := bbStartAddr + {addrNextBb};
          bbStartAddr := bbStartAddr + {target};
          succs := AddSuccessors(succs, instr.addr, {target});
        case CondJump(target) =>
          AddTwice(succs, instr.addr, addrNextBb, target);
          bbStartAddr := bbStartAddr + {addrNextBb};
          succs := AddSuccessors(succs, instr.addr, {addrNextBb});
          bbStartAddr := bbStartAddr + {target};
          succs := AddSuccessors(succs, instr.addr, {target});
        case Plain =>
        case Nop =>
      }
    }

    /** Puts instruction `i` into a new block or into the current one. */
    method PlaceInstruction(i: nat, prevAddr: int)
      requires i < |instructions| && prevAddr == if i == 0 then -1 else instructions[i - 1].addr
      requires !StartsBlock(instructions, bbStartAddr, i) ==> |nodes| > 0
      modifies `nodes, `addressToNode
      ensures nodes == Place(old(nodes), StartsBlock(instructions, bbStartAddr, i), instructions[i])
      ensures addressToNode == if StartsBlock(instructions, bbStartAddr, i)
                               then old(addressToNode)[instructions[i].addr := |old(nodes)|]
                               else old(addressToNode)
    {
      var currentAddr := instructions[i].addr;
      if prevAddr != currentAddr {
        var mkNewBB := currentAddr in bbStartAddr;
        if mkNewBB || i == 0 {
          nodes := nodes + [[]];
          addressToNode := addressToNode[currentAddr := |nodes| - 1];
        }
      }
      nodes := nodes[|nodes| - 1 := nodes[|nodes| - 1] + [instructions[i]]];
      assert StartsBlock(instructions, bbStartAddr, i) ==> nodes[|nodes| - 1] == [instructions[i]];
    }

    /** Creates the basic blocks. */
    method CreateBlocks()
      modifies `nodes, `addressToNode
      ensures nodes == Blocks(instructions, bbStartAddr, |instructions|)
      ensures addressToNode == Table(instructions, bbStartAddr, |instructions|)
    {
      nodes, addressToNode := [], map[];
      var prevAddr: int := -1;
      for i := 0 to |instructions|
        invariant prevAddr == if i == 0 then -1 else instructions[i - 1].addr
        invariant nodes == Blocks(instructions, bbStartAddr, i)
        invariant addressToNode == Table(instructions, bbStartAddr, i)
      {
        PlaceInstruction(i, prevAddr);
        prevAddr := instructions[i].addr;
      }
    }

    method CreateNewEdge(origin: NodeRef, destination: NodeRef)
      modifies `edges
      ensures edges == old(edges) + [(origin, destination)]
      ensures EdgeSet() == old(EdgeSet()) + {(origin, destination)}
    {
      edges := edges + [(origin, destination)];
    }

    ghost function EdgeSet(): set<(NodeRef, NodeRef)>
      reads this
    {
      set e | e in edges
    }

    /** Creates one edge to each successor of the instruction at `i` from node `ncur`. */
    method LinkSuccessors(i: nat, ncur: NodeRef)
      requires i < |instructions|
      modifies `edges
      ensures EdgeSet() == old(EdgeSet()) + LinkEdges(succs, addressToNode, instructions[i].addr, ncur)
      ensures old(edges) <= edges
      ensures |edges| == |old(edges)| + if instructions[i].addr in succs then |succs[instructions[i].addr]| else 0
    {
      var currentAddr := instructions[i].addr;
      if currentAddr in succs {
        LinkAll(succs[currentAddr], ncur);
      }
    }

    method LinkAll(addrs: set<nat>, ncur: NodeRef)
      modifies `edges
      ensures EdgeSet() == old(EdgeSet()) + NodesOf(addressToNode, ncur, addrs)
      ensures old(edges) <= edges && |edges| == |old(edges)| + |addrs|
    {
      hide NodesOf, Lookup;
      NothingLinked(addressToNode, ncur);
      var rest, done := addrs, {};
      while rest != {}
        invariant rest !! done && rest + done == addrs
        invariant EdgeSet() == old(EdgeSet()) + NodesOf(addressToNode, ncur, done)
        invariant old(edges) <= edges && |edges| == |old(edges)| + |done|
        decreases rest
      {
        var t :| t in rest;
        LinkOneMore(addressToNode, ncur, done, t);
        CreateNewEdge(ncur, Lookup(addressToNode, t));
        rest, done := rest - {t}, done + {t};
      }
      assert done == addrs;
    }

    /** Creates all edges: falling through, and to the recorded successors. */
    method CreateEdges()
      modifies `edges
      ensures EdgeSet() == ScanEdges(instructions, bbStartAddr, addressToNode, succs, |instructions|).edges
    {
      edges := [];
      var curbbStartAddr: nat := 0;
      var previousBlockHasJump := false;
      var prevAddr: int := -1;
      for i := 0 to |instructions|
        invariant prevAddr == if i == 0 then -1 else instructions[i - 1].addr
        invariant EdgeScan(curbbStartAddr, previousBlockHasJump, EdgeSet())
                  == ScanEdges(instructions, bbStartAddr, addressToNode, succs, i)
      {
        var currentAddr := instructions[i].addr;
        if currentAddr != prevAddr {
          var mkNewBB := currentAddr in bbStartAddr;
          if mkNewBB || i == 0 {
            if !previousBlockHasJump && curbbStartAddr != 0 {
              CreateNewEdge(Lookup(addressToNode, curbbStartAddr), Lookup(addressToNode, currentAddr));
            }
            curbbStartAddr := currentAddr;
            previousBlockHasJump := false;
          }
          LinkSuccessors(i, Lookup(addressToNode, curbbStartAddr));
          previousBlockHasJump := previousBlockHasJump || SeenControl(instructions[i]);
        }
        prevAddr := currentAddr;
      }
    }

    /** Reads the instructions of one function. */
    method ReadFunction(code: seq<Reading>)
      requires Collected() && instructions == [] && Separate(code)
      modifies `instructions, `bbStartAddr, `succs
      ensures Collected() && instructions == Entries(code)
    {
      for i := 0 to |code|
        invariant Collected() && instructions == Entries(code[..i])
      {
        ReadInstruction(code[i]);
        assert code[..i + 1][..i] == code[..i];
      }
      assert code[..|code|] == code;
    }

    method GetPredecessors(b: nat) returns (p: seq<nat>)
      ensures p == PredecessorsIn(edges, b)
    {
      p := [];
      for i := 0 to |edges|
        invariant p == PredecessorsIn(edges[..i], b)
      {
        assert edges[..i + 1][..i] == edges[..i];
        if edges[i].0.Node? && edges[i].1 == NodeRef.Node(b) {
          p := p + [edges[i].0.index];
        }
      }
      assert edges[..|edges|] == edges;
    }

    /** The graph as the analyses see it. */
    method GetCfg() returns (g: Graph)
      ensures IsCfg(g, |nodes|, edges)
    {
      var preds: map<FlowGraph.Node, seq<FlowGraph.Node>> := map[];
      for b := 0 to |nodes|
        invariant forall c: nat :: c in preds <==> c < b
        invariant forall c: nat | c < b :: preds[c] == PredecessorsIn(edges, c)
      {
        var p := GetPredecessors(b);
        preds := preds[b := p];
      }
      g := Graph(Listed(|nodes|), 0, preds);
    }

    /** The edges that start at block `b`. */
    method GetOutgoingEdges(b: nat) returns (out: seq<(NodeRef, NodeRef)>)
      ensures out == Outgoing(edges, b)
    {
      out := [];
      for i := 0 to |edges|
        invariant out == Outgoing(edges[..i], b)
      {
        assert edges[..i + 1][..i] == edges[..i];
        if edges[i].0 == NodeRef.Node(b) {
          out := out + [edges[i]];
        }
      }
      assert edges[..|edges|] == edges;
    }

    /** Removes one edge. */
    method RemoveEdge(e: (NodeRef, NodeRef))
      modifies `edges
      ensures multiset(edges) == multiset(old(edges)) - multiset{e}
    {
      for i := 0 to |edges|
        invariant edges == old(edges) && e !in edges[..i]
      {
        if edges[i] == e {
          assert edges == edges[..i] + [e] + edges[i + 1..];
          edges := edges[..i] + edges[i + 1..];
          return;
        }
      }
      assert edges[..|edges|] == edges;
    }

    /** Whether block `b` is a single `nop` without predecessors. */
    method IsIsolatedNop(b: nat) returns (isolated: bool)
      requires b < |nodes|
      ensures isolated <==> |nodes[b]| == 1 && nodes[b][0].seen.Nop? && forall a: nat :: (Node(a), Node(b)) !in edges
      ensures isolated <==> Isolated(EdgeSet(), NopBlocks(nodes), b)
    {
      if |nodes[b]| != 1 {
        return false;
      }
      if !nodes[b][0].seen.Nop? {
        return false;
      }
      var p := GetPredecessors(b);
      assert p != [] ==> p[0] in p;
      isolated := p == [];
    }

    /** Takes the outgoing edges off block `b`. */
    method RemoveOutgoing(b: nat)
      modifies `edges
      ensures EdgeSet() == set e | e in old(EdgeSet()) && e.0 != NodeRef.Node(b)
    {
      hide Outgoing;
      var out := GetOutgoingEdges(b);
      for k := 0 to |out|
        invariant multiset(edges) == multiset(old(edges)) - multiset(out[..k])
      {
        OneMoreRemoved(old(edges), out, k);
        RemoveEdge(out[k]);
      }
      assert out[..|out|] == out;
      OutgoingRemoved(old(edges), edges, b);
      assert EdgeSet() == set e | e in edges;
    }

    /** Takes the edges off isolated padding. */
    method CleanCfg()
      modifies `edges
      ensures EdgeSet() == if isa.arm then CleanTo(old(EdgeSet()), NopBlocks(nodes), |nodes|) else old(EdgeSet())
    {
      hide NopBlocks, Isolated;
      if isa.arm {
        var i := 1;
        while i < |nodes|
          invariant 1 <= i && (i <= |nodes| || i == 1)
          invariant EdgeSet() == CleanTo(old(EdgeSet()), NopBlocks(nodes), i)
        {
          var isolated := IsIsolatedNop(i);
          if isolated {
            RemoveOutgoing(i);
          }
          i := i + 1;
        }
      }
    }

    /** Builds the graph of the function that was read. */
    method BuildHeptaneCfg()
      requires Collected()
      modifies `nodes, `edges, `addressToNode
      ensures nodes == Blocks(instructions, Leaders(isa, instructions), |instructions|)
      ensures addressToNode == Table(instructions, Leaders(isa, instructions), |instructions|)
      ensures EdgeSet() == FinalEdges(isa, instructions)
    {
      CreateBlocks();
      CreateEdges();
      CleanCfg();
    }
  }
}
