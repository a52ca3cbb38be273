/** `cleanCfg`: taking the edges off the isolated padding blocks of a graph, on values. */
module Cleaning {
  import opened ExtractionSpec

  type BlockEdge = (NodeRef, NodeRef)

  /** A block of a single `nop`. */
  predicate IsNop(block: seq<Instr>) {
    |block| == 1 && block[0].seen.Nop?
  }

  ghost function NopBlocks(nodes: seq<seq<Instr>>): set<nat> {
    set b: nat | b < |nodes| && IsNop(nodes[b])
  }

  /** Block `b` is a single `nop` that no edge leads to. */
  ghost predicate Isolated(edges: set<BlockEdge>, nops: set<nat>, b: nat) {
    b in nops && forall a: nat :: (Node(a), Node(b)) !in edges
  }

  /** What cleaning the blocks before `k` leaves; the first block is not looked at. */
  ghost function CleanTo(edges: set<BlockEdge>, nops: set<nat>, k: nat): set<BlockEdge> {
    if k <= 1 then edges
    else
      var before := CleanTo(edges, nops, k - 1);
      if Isolated(before, nops, k - 1) then set e | e in before && e.0 != Node(k - 1) else before
  }

  lemma {:induction false} CleanedIsLess(edges: set<BlockEdge>, nops: set<nat>, k: nat)
    ensures CleanTo(edges, nops, k) <= edges
  {
    if k > 1 {
      CleanedIsLess(edges, nops, k - 1);
    }
  }

  /** An edge is taken off only where it starts at a block that stays isolated. */
  lemma {:induction false} CleanedFromIsolated(edges: set<BlockEdge>, nops: set<nat>, k: nat, e: BlockEdge)
    requires e in edges && e !in CleanTo(edges, nops, k)
    ensures e.0.Node? && 1 <= e.0.index < k && Isolated(CleanTo(edges, nops, k), nops, e.0.index)
  {
    if k > 1 {
      var before := CleanTo(edges, nops, k - 1);
      if e !in before {
        CleanedFromIsolated(edges, nops, k - 1, e);
      }
      assert CleanTo(edges, nops, k) <= before;
    }
  }

  /** From a padding block control can only fall into the next one. */
  ghost predicate NopsFall(edges: set<BlockEdge>, nops: set<nat>) {
    forall e | e in edges && e.0.Node? && e.0.index in nops :: e.1 == Node(e.0.index + 1)
  }

  /** Cleaning a later block does not isolate block `b`. */
  lemma LaterDoesNotIsolate(before: set<BlockEdge>, after: set<BlockEdge>, nops: set<nat>, c: nat, b: nat)
    requires NopsFall(before, nops) && c in nops && b <= c
    requires after == (set e | e in before && e.0 != Node(c)) && Isolated(after, nops, b)
    ensures Isolated(before, nops, b)
  {
    forall a: nat
      ensures (Node(a), Node(b)) !in before
    {
      var e := (Node(a), Node(b));
      assert e !in after;
    }
  }

  /** If padding only falls, a block that is isolated in the end was so when it was looked at. */
  lemma {:induction false} IsolatedInTime(edges: set<BlockEdge>, nops: set<nat>, k: nat, b: nat)
    requires NopsFall(edges, nops) && 1 <= b < k && Isolated(CleanTo(edges, nops, k), nops, b)
    ensures Isolated(CleanTo(edges, nops, b), nops, b)
    decreases k
  {
    var before := CleanTo(edges, nops, k - 1);
    CleanedIsLess(edges, nops, k - 1);
    if Isolated(before, nops, k - 1) {
      LaterDoesNotIsolate(before, CleanTo(edges, nops, k), nops, k - 1, b);
    }
    if b < k - 1 {
      hide NopsFall, Isolated;
      IsolatedInTime(edges, nops, k - 1, b);
    }
  }

  lemma {:induction false} StaysClean(edges: set<BlockEdge>, nops: set<nat>, k: nat, b: nat)
    requires 1 <= b < k && Isolated(CleanTo(edges, nops, b), nops, b)
    ensures forall e | e in CleanTo(edges, nops, k) :: e.0 != Node(b)
    decreases k
  {
    if b < k - 1 {
      StaysClean(edges, nops, k - 1, b);
    }
  }

  /** Exactly the edges out of isolated padding are taken off, whatever the order of the blocks. */
  lemma CleanedExactly(edges: set<BlockEdge>, nops: set<nat>, k: nat, e: BlockEdge)
    requires NopsFall(edges, nops)
    ensures var cleaned := CleanTo(edges, nops, k);
            e in cleaned <==>
            e in edges && !(e.0.Node? && 1 <= e.0.index < k && Isolated(cleaned, nops, e.0.index))
  {
    CleanedIsLess(edges, nops, k);
    if e in edges && e !in CleanTo(edges, nops, k) {
      CleanedFromIsolated(edges, nops, k, e);
    }
    if e.0.Node? && 1 <= e.0.index < k && Isolated(CleanTo(edges, nops, k), nops, e.0.index) {
      IsolatedInTime(edges, nops, k, e.0.index);
      StaysClean(edges, nops, k, e.0.index);
    }
  }

  /** The edges of the finished graph; only graphs of ARM code are cleaned. */
  ghost function FinalEdges(isa: Isa, ins: seq<Instr>): set<BlockEdge> {
    var nodes := Blocks(ins, Leaders(isa, ins), |ins|);
    if isa.arm then CleanTo(ProgramEdges(isa, ins), NopBlocks(nodes), |nodes|) else ProgramEdges(isa, ins)
  }

  lemma FinalIsLess(isa: Isa, ins: seq<Instr>)
    ensures FinalEdges(isa, ins) <= ProgramEdges(isa, ins)
  {
    var nodes := Blocks(ins, Leaders(isa, ins), |ins|);
    CleanedIsLess(ProgramEdges(isa, ins), NopBlocks(nodes), |nodes|);
  }

  /** No edge is taken off the first block, nor off a block that an edge still leads to. */
  lemma FinalKeepsEntered(isa: Isa, ins: seq<Instr>, a: nat, r: NodeRef)
    requires (Node(a), r) in ProgramEdges(isa, ins)
    requires a == 0 || exists p: nat :: (Node(p), Node(a)) in FinalEdges(isa, ins)
    ensures (Node(a), r) in FinalEdges(isa, ins)
  {
    var nodes := Blocks(ins, Leaders(isa, ins), |ins|);
    if isa.arm && (Node(a), r) !in FinalEdges(isa, ins) {
      CleanedFromIsolated(ProgramEdges(isa, ins), NopBlocks(nodes), |nodes|, (Node(a), r));
    }
  }

  // ---- Removing the outgoing edges one by one

  /** The edges that start at block `b`, in their order. */
  function Outgoing(edges: seq<BlockEdge>, b: nat): seq<BlockEdge> {
    if edges == [] then []
    else Outgoing(edges[..|edges| - 1], b) + if edges[|edges| - 1].0 == Node(b) then [edges[|edges| - 1]] else []
  }

  lemma {:induction false} OutgoingCount(edges: seq<BlockEdge>, b: nat, e: BlockEdge)
    ensures multiset(Outgoing(edges, b))[e] == if e.0 == Node(b) then multiset(edges)[e] else 0
  {
    if edges != [] {
      var last := |edges| - 1;
      OutgoingCount(edges[..last], b, e);
      assert edges == edges[..last] + [edges[last]];
    }
  }

  lemma OneMoreRemoved(edges: seq<BlockEdge>, out: seq<BlockEdge>, k: nat)
    requires k < |out|
    ensures multiset(edges) - multiset(out[..k]) - multiset{out[k]} == multiset(edges) - multiset(out[..k + 1])
  {
    assert out[..k + 1] == out[..k] + [out[k]];
  }

  /** With all its outgoing edges removed, exactly those of other blocks are left. */
  lemma OutgoingRemoved(edges: seq<BlockEdge>, rest: seq<BlockEdge>, b: nat)
    requires multiset(rest) == multiset(edges) - multiset(Outgoing(edges, b))
    ensures (set e | e in rest) == set e | e in edges && e.0 != Node(b)
  {
    forall e
      ensures e in rest <==> e in edges && e.0 != Node(b)
    {
      OutgoingCount(edges, b, e);
      assert e in rest <==> multiset(rest)[e] > 0;
      assert e in edges <==> multiset(edges)[e] > 0;
    }
  }
}
