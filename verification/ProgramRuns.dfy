/** The paths of the extracted graph are the runs of the program. */
module ProgramRuns {
  import opened ExtractionSpec
  import opened Cleaning
  import opened FlowGraph
  import opened ProgramSimulation

  ghost function BlockCount(isa: Isa, ins: seq<Instr>): nat
    requires |ins| > 0
  {
    BlockOf(ins, Leaders(isa, ins), |ins| - 1) + 1
  }

  /** The nodes of `g` are the blocks before `count`, with the first one as the start, and its edges
      are those of `edges` between them. */
  ghost predicate IsGraphOf(g: Graph, count: nat, edges: set<BlockEdge>) {
    && g.Valid() && g.start == 0
    && (forall b: nat :: b in g.nodes <==> b < count)
    && forall a: nat, b: nat :: Edge(g, a, b) <==> a < count && b < count && (Node(a), Node(b)) in edges
  }

  /** `g` is the extracted graph as the analyses take it. */
  ghost predicate Extracts(g: Graph, isa: Isa, ins: seq<Instr>) {
    |ins| > 0 && IsGraphOf(g, BlockCount(isa, ins), FinalEdges(isa, ins))
  }

  /** Block `a` is the first or an edge leads to it. */
  ghost predicate Entered(g: Graph, a: nat) {
    a == g.start || exists p: nat :: Edge(g, p, a)
  }

  /** Every stray fall out of a reachable block is a step of the program anyway. */
  ghost predicate OnlyDeadStray(g: Graph, isa: Isa, ins: seq<Instr>) {
    forall i, j, a | StrayFall(isa, ins, i, j) && InBlock(isa, ins, i, a) && Reachable(g, a) :: Step(isa, ins, i, j)
  }

  /** A run of the program from its first instruction to the one at `i`. */
  ghost predicate Run(isa: Isa, ins: seq<Instr>, r: seq<nat>, i: nat) {
    && |r| > 0 && r[0] == 0 && r[|r| - 1] == i && i < |ins|
    && forall k | 0 <= k < |r| - 1 :: Step(isa, ins, r[k], r[k + 1])
  }

  ghost predicate InBlock(isa: Isa, ins: seq<Instr>, i: nat, b: nat) {
    i < |ins| && BlockOf(ins, Leaders(isa, ins), i) == b
  }

  ghost predicate Visits(isa: Isa, ins: seq<Instr>, r: seq<nat>, b: nat) {
    exists x | x in r :: InBlock(isa, ins, x, b)
  }

  /** Without stray falls there are none in reachable blocks. */
  lemma NothingStray(g: Graph, isa: Isa, ins: seq<Instr>)
    requires WellPlaced(isa, ins) && NoHiddenStop(isa, ins) && NoGapFall(isa, ins)
    ensures OnlyDeadStray(g, isa, ins)
  {
    hide WellPlaced, NoHiddenStop, NoGapFall, InBlock, Reachable;
    forall i, j | StrayFall(isa, ins, i, j)
      ensures Step(isa, ins, i, j)
    {
      GraphStepMeans(isa, ins, i, j);
      StepsAgree(isa, ins, i, j);
    }
  }

  lemma BlockInRange(isa: Isa, ins: seq<Instr>, i: nat)
    requires i < |ins|
    ensures BlockOf(ins, Leaders(isa, ins), i) < BlockCount(isa, ins)
  {
    BlockOfGrows(ins, Leaders(isa, ins), i, |ins| - 1);
  }

  /** A step out of a block that is entered stays in the block or follows an edge of the graph. */
  lemma StepAmongBlocks(g: Graph, isa: Isa, ins: seq<Instr>, h: nat, i: nat, a: nat, b: nat)
    requires WellPlaced(isa, ins) && Extracts(g, isa, ins) && Step(isa, ins, h, i)
    requires InBlock(isa, ins, h, a) && InBlock(isa, ins, i, b) && Entered(g, a)
    ensures a == b || Edge(g, a, b)
  {
    hide WellPlaced, Leaders, Step, GraphStep, StrayFall, ProgramEdges, FinalEdges, BlockCount, BlockOf;
    GraphStepMeans(isa, ins, h, i);
    GraphStepAmongBlocks(isa, ins, h, i);
    BlockInRange(isa, ins, h);
    BlockInRange(isa, ins, i);
    if a != b {
      FinalKeepsEntered(isa, ins, a, Node(b));
    }
  }

  lemma GraphStepAmongBlocks(isa: Isa, ins: seq<Instr>, h: nat, i: nat)
    requires GraphStep(isa, ins, h, i)
    ensures var a, b := BlockOf(ins, Leaders(isa, ins), h), BlockOf(ins, Leaders(isa, ins), i);
            a == b || (Node(a), Node(b)) in ProgramEdges(isa, ins)
  {
    hide Leaders, ProgramEdges;
  }

  lemma PathEnters(g: Graph, p: seq<nat>, a: nat)
    requires PathBetween(g, p, g.start, a)
    ensures Entered(g, a)
  {
    if |p| > 1 {
      assert Edge(g, p[|p| - 2], p[|p| - 2 + 1]);
    }
  }

  /** Whether cleaned or not, the graph has the same paths from its start. */
  lemma {:induction false} CleaningKeepsPaths(g: Graph, c: Graph, isa: Isa, ins: seq<Instr>, p: seq<nat>, b: nat)
    requires |ins| > 0 && IsGraphOf(g, BlockCount(isa, ins), ProgramEdges(isa, ins)) && Extracts(c, isa, ins)
    ensures PathBetween(g, p, 0, b) <==> PathBetween(c, p, 0, b)
    decreases |p|
  {
    hide BlockCount, ProgramEdges, FinalEdges;
    FinalIsLess(isa, ins);
    if PathBetween(g, p, 0, b) && |p| > 1 {
      var a := p[|p| - 2];
      assert Edge(g, p[|p| - 2], p[|p| - 2 + 1]);
      SubPath(g, p, 0, |p| - 2);
      assert p[0..|p| - 2 + 1] == p[..|p| - 1];
      CleaningKeepsPaths(g, c, isa, ins, p[..|p| - 1], a);
      PathEnters(c, p[..|p| - 1], a);
      FinalKeepsEntered(isa, ins, a, Node(b));
      ExtendPath(c, p[..|p| - 1], 0, a, b);
      assert p == p[..|p| - 1] + [b];
    }
    if PathBetween(c, p, 0, b) {
      forall i | 0 <= i < |p| - 1
        ensures Edge(g, p[i], p[i + 1])
      {
        assert Edge(c, p[i], p[i + 1]);
      }
    }
  }

  /** So cleaning changes neither what is reachable nor what dominates what. */
  lemma CleaningKeepsDominance(g: Graph, c: Graph, isa: Isa, ins: seq<Instr>)
    requires |ins| > 0 && IsGraphOf(g, BlockCount(isa, ins), ProgramEdges(isa, ins)) && Extracts(c, isa, ins)
    ensures forall b: nat :: Reachable(g, b) <==> Reachable(c, b)
    ensures forall a: nat, b: nat :: Dominates(g, a, b) <==> Dominates(c, a, b)
  {
    assert g.start == 0 && c.start == 0;
    forall p, b: nat
      ensures PathBetween(g, p, 0, b) <==> PathBetween(c, p, 0, b)
    {
      CleaningKeepsPaths(g, c, isa, ins, p, b);
    }
    hide PathBetween;
  }

  // ---- From runs to paths

  lemma FirstBlock(isa: Isa, ins: seq<Instr>, b: nat)
    requires InBlock(isa, ins, 0, b)
    ensures b == 0
  {
  }

  /** Every run has a path through the blocks it visits. */
  lemma {:induction false} RunHasPath(g: Graph, isa: Isa, ins: seq<Instr>, r: seq<nat>, i: nat, b: nat) returns (p: seq<nat>)
    requires WellPlaced(isa, ins) && Extracts(g, isa, ins) && Run(isa, ins, r, i) && InBlock(isa, ins, i, b)
    ensures PathBetween(g, p, 0, b)
    ensures forall c | c in p :: Visits(isa, ins, r, c)
    decreases |r|
  {
    hide WellPlaced, Step, InBlock, Extracts, Entered, Visits;
    StartsAtZero(g, isa, ins);
    if |r| == 1 {
      FirstBlock(isa, ins, b);
      p := [0];
      VisitsLast(isa, ins, r, i, b);
    } else {
      var before, h := r[..|r| - 1], r[|r| - 2];
      assert Step(isa, ins, r[|r| - 2], r[|r| - 2 + 1]);
      var a := BlockOfStep(isa, ins, h, i);
      assert Run(isa, ins, before, h);
      var q := RunHasPath(g, isa, ins, before, h, a);
      PathEnters(g, q, a);
      StepAmongBlocks(g, isa, ins, h, i, a, b);
      VisitsLast(isa, ins, r, i, b);
      EarlierVisits(isa, ins, r);
      if a == b {
        p := q;
      } else {
        ExtendPath(g, q, 0, a, b);
        p := q + [b];
      }
    }
  }

  lemma StartsAtZero(g: Graph, isa: Isa, ins: seq<Instr>)
    requires Extracts(g, isa, ins)
    ensures g.Valid() && g.start == 0
  {
  }

  lemma EarlierVisits(isa: Isa, ins: seq<Instr>, r: seq<nat>)
    requires |r| > 0
    ensures forall c | Visits(isa, ins, r[..|r| - 1], c) :: Visits(isa, ins, r, c)
  {
    hide InBlock;
    assert forall x | x in r[..|r| - 1] :: x in r;
  }

  lemma BlockOfStep(isa: Isa, ins: seq<Instr>, h: nat, i: nat) returns (a: nat)
    requires Step(isa, ins, h, i)
    ensures InBlock(isa, ins, h, a)
  {
    a := BlockOf(ins, Leaders(isa, ins), h);
  }

  /** A block that dominates the block of an instruction is executed in every run that comes there. */
  lemma DominatorsAreExecuted(g: Graph, isa: Isa, ins: seq<Instr>, r: seq<nat>, i: nat, a: nat, b: nat)
    requires WellPlaced(isa, ins) && Extracts(g, isa, ins) && Run(isa, ins, r, i) && InBlock(isa, ins, i, b)
    requires Dominates(g, a, b)
    ensures Visits(isa, ins, r, a)
  {
    var p := RunHasPath(g, isa, ins, r, i, b);
    assert PathBetween(g, p, g.start, b);
    hide Visits, InBlock, Run, WellPlaced, Extracts;
  }

  /** A block that some run comes to is reachable. */
  lemma ExecutedIsReachable(g: Graph, isa: Isa, ins: seq<Instr>, r: seq<nat>, i: nat, b: nat)
    requires WellPlaced(isa, ins) && Extracts(g, isa, ins) && Run(isa, ins, r, i) && InBlock(isa, ins, i, b)
    ensures Reachable(g, b)
  {
    var p := RunHasPath(g, isa, ins, r, i, b);
    assert PathBetween(g, p, g.start, b);
  }

  // ---- From paths to runs

  lemma OneMoreStep(isa: Isa, ins: seq<Instr>, r: seq<nat>, i: nat, j: nat)
    requires Run(isa, ins, r, i) && Step(isa, ins, i, j)
    ensures Run(isa, ins, r + [j], j)
    ensures forall b | Visits(isa, ins, r + [j], b) :: Visits(isa, ins, r, b) || InBlock(isa, ins, j, b)
  {
    hide InBlock;
    assert Run(isa, ins, r + [j], j) by {
      hide Step;
    }
  }

  /** Inside a reachable block execution goes on to the next instruction. */
  lemma StepInsideBlock(g: Graph, isa: Isa, ins: seq<Instr>, i: nat, j: nat, b: nat)
    requires WellPlaced(isa, ins) && OnlyDeadStray(g, isa, ins) && Reachable(g, b)
    requires i < j && InBlock(isa, ins, i, b) && InBlock(isa, ins, j, b)
    ensures Step(isa, ins, i, i + 1) && InBlock(isa, ins, i + 1, b)
  {
    var leaders := Leaders(isa, ins);
    BlockOfGrows(ins, leaders, i, j);
    BlockOfGrows(ins, leaders, i, i + 1);
    assert !EndsBlock(ins, leaders, i);
    GraphStepMeans(isa, ins, i, i + 1);
    hide WellPlaced, Leaders, EndsBlock, Step, StrayFall;
  }

  /** A run can go on to any later instruction of the same block. */
  lemma {:induction false} RunInsideBlock(g: Graph, isa: Isa, ins: seq<Instr>, r: seq<nat>, i: nat, j: nat, b: nat)
    returns (s: seq<nat>)
    requires WellPlaced(isa, ins) && OnlyDeadStray(g, isa, ins) && Reachable(g, b) && Run(isa, ins, r, i) && i <= j
    requires InBlock(isa, ins, i, b) && InBlock(isa, ins, j, b)
    ensures Run(isa, ins, s, j)
    ensures forall c | Visits(isa, ins, s, c) :: Visits(isa, ins, r, c)
    decreases j - i
  {
    hide WellPlaced, OnlyDeadStray, Reachable, Run, Step, Visits, InBlock;
    if i == j {
      s := r;
    } else {
      StepInsideBlock(g, isa, ins, i, j, b);
      VisitsLast(isa, ins, r, i, b);
      OneBlock(isa, ins, i + 1);
      OneMoreStep(isa, ins, r, i, i + 1);
      s := RunInsideBlock(g, isa, ins, r + [i + 1], i + 1, j, b);
    }
  }

  lemma VisitsLast(isa: Isa, ins: seq<Instr>, r: seq<nat>, i: nat, b: nat)
    requires Run(isa, ins, r, i) && InBlock(isa, ins, i, b)
    ensures Visits(isa, ins, r, b)
  {
    assert r[|r| - 1] == i;
  }

  /** An edge into the block that starts at `i` comes from the last instruction of its source. */
  lemma EdgeIsGraphStep(g: Graph, isa: Isa, ins: seq<Instr>, a: nat, i: nat, b: nat) returns (e: nat)
    requires Extracts(g, isa, ins) && InBlock(isa, ins, i, b) && StartsBlock(ins, Leaders(isa, ins), i) && Edge(g, a, b)
    ensures InBlock(isa, ins, e, a) && EndsBlock(ins, Leaders(isa, ins), e)
    ensures GraphStep(isa, ins, e, i)
  {
    FinalIsLess(isa, ins);
    hide Leaders, BlockOf, StartsBlock, ProgramEdges, FinalEdges;
    e := EndOfBlock(ins, Leaders(isa, ins), |ins| - 1, a);
  }

  /** Block `b` has a last instruction. */
  lemma {:induction false} EndOfBlock(ins: seq<Instr>, leaders: set<nat>, k: nat, b: nat) returns (e: nat)
    requires k < |ins| && EndsBlock(ins, leaders, k) && b <= BlockOf(ins, leaders, k)
    ensures e <= k && EndsBlock(ins, leaders, e) && BlockOf(ins, leaders, e) == b
    decreases k
  {
    if b == BlockOf(ins, leaders, k) {
      e := k;
    } else {
      var f := FirstOf(ins, leaders, k);
      e := EndOfBlock(ins, leaders, f - 1, b);
    }
  }

  /** A run at the first instruction of a block can go on to the end of the block and along an edge. */
  lemma RunAcrossEdge(g: Graph, isa: Isa, ins: seq<Instr>, q: seq<nat>, f: nat, e: nat, i: nat, a: nat, b: nat)
    returns (r: seq<nat>)
    requires WellPlaced(isa, ins) && OnlyDeadStray(g, isa, ins) && Reachable(g, a) && Run(isa, ins, q, f) && f <= e
    requires InBlock(isa, ins, f, a) && InBlock(isa, ins, e, a) && InBlock(isa, ins, i, b)
    requires EndsBlock(ins, Leaders(isa, ins), e) && GraphStep(isa, ins, e, i)
    ensures Run(isa, ins, r, i)
    ensures forall c | Visits(isa, ins, r, c) :: Visits(isa, ins, q, c) || c == b
  {
    OneBlock(isa, ins, i);
    hide WellPlaced, Run, Step, GraphStep, StrayFall, Visits, InBlock, Reachable;
    var s := RunInsideBlock(g, isa, ins, q, f, e, a);
    GraphStepMeans(isa, ins, e, i);
    OneMoreStep(isa, ins, s, e, i);
    r := s + [i];
  }

  lemma OneBlock(isa: Isa, ins: seq<Instr>, i: nat)
    ensures forall b, c | InBlock(isa, ins, i, b) && InBlock(isa, ins, i, c) :: b == c
  {
  }

  lemma FirstInBlock(isa: Isa, ins: seq<Instr>, e: nat, a: nat) returns (f: nat)
    requires InBlock(isa, ins, e, a)
    ensures f <= e && InBlock(isa, ins, f, a) && StartsBlock(ins, Leaders(isa, ins), f)
  {
    f := FirstOf(ins, Leaders(isa, ins), e);
  }

  lemma OnlyStartOfFirst(isa: Isa, ins: seq<Instr>, i: nat)
    requires InBlock(isa, ins, i, 0) && StartsBlock(ins, Leaders(isa, ins), i)
    ensures i == 0
  {
    StartIsFirst(ins, Leaders(isa, ins), 0, i);
  }

  /** Every path of the graph is the trace of a run that visits its blocks only. */
  lemma {:induction false} PathHasRun(g: Graph, isa: Isa, ins: seq<Instr>, p: seq<nat>, i: nat, b: nat) returns (r: seq<nat>)
    requires WellPlaced(isa, ins) && OnlyDeadStray(g, isa, ins) && Extracts(g, isa, ins)
    requires InBlock(isa, ins, i, b) && StartsBlock(ins, Leaders(isa, ins), i) && PathBetween(g, p, 0, b)
    ensures Run(isa, ins, r, i)
    ensures forall c | Visits(isa, ins, r, c) :: c in p
    decreases |p|
  {
    hide WellPlaced, OnlyDeadStray, Step, GraphStep, InBlock, StartsBlock, EndsBlock, Extracts, Leaders, Run, Visits;
    StartsAtZero(g, isa, ins);
    OneBlock(isa, ins, 0);
    if |p| == 1 {
      OnlyStartOfFirst(isa, ins, i);
      r := [0];
      assert 0 in p;
      OnlyFirstVisited(isa, ins, b);
    } else {
      var a := p[|p| - 2];
      assert Edge(g, p[|p| - 2], p[|p| - 2 + 1]);
      SubPath(g, p, 0, |p| - 2);
      assert p[0..|p| - 2 + 1] == p[..|p| - 1];
      var e := EdgeIsGraphStep(g, isa, ins, a, i, b);
      var f := FirstInBlock(isa, ins, e, a);
      var q := PathHasRun(g, isa, ins, p[..|p| - 1], f, a);
      assert Reachable(g, a);
      r := RunAcrossEdge(g, isa, ins, q, f, e, i, a, b);
      assert b in p;
    }
  }

  lemma OnlyFirstVisited(isa: Isa, ins: seq<Instr>, b: nat)
    requires InBlock(isa, ins, 0, b)
    ensures Run(isa, ins, [0], 0) && forall c | Visits(isa, ins, [0], c) :: c == b
  {
  }

  /** If stray falls that are no steps stand in unreachable blocks only, a block dominates the block of an
      instruction if and only if every run of the program that comes to the instruction executes it. */
  lemma DominanceIsAboutRuns(g: Graph, isa: Isa, ins: seq<Instr>, a: nat, i: nat, b: nat)
    requires WellPlaced(isa, ins) && OnlyDeadStray(g, isa, ins) && Extracts(g, isa, ins) && InBlock(isa, ins, i, b)
    ensures Dominates(g, a, b) <==> forall r | Run(isa, ins, r, i) :: Visits(isa, ins, r, a)
  {
    assert g.start == 0;
    hide WellPlaced, OnlyDeadStray, Extracts, InBlock, Run, Visits, Leaders, StartsBlock;
    if Dominates(g, a, b) {
      forall r | Run(isa, ins, r, i)
        ensures Visits(isa, ins, r, a)
      {
        DominatorsAreExecuted(g, isa, ins, r, i, a, b);
      }
    }
    if forall r | Run(isa, ins, r, i) :: Visits(isa, ins, r, a) {
      forall p | PathBetween(g, p, g.start, b)
        ensures a in p
      {
        var f := FirstInBlock(isa, ins, i, b);
        var q := PathHasRun(g, isa, ins, p, f, b);
        assert Reachable(g, b);
        var r := RunInsideBlock(g, isa, ins, q, f, i, b);
      }
    }
  }
}
