/** How expanded block transfers are read, and the returns that their expansion hides. */
module HiddenReturns {
  import opened BlockTransferSpec
  import opened ExtractionSpec
  import opened EntryLists
  import opened ProgramSimulation

  const PC: nat := 15

  function Pop(list: seq<nat>): Multiple {
    Multiple(true, SP, list, true, true, true)
  }

  /** A load or store is plain; the final addition keeps the mnemonic and operands of the pop. */
  function SeenAs(op: Op, loadsPc: bool): Kind {
    if op.AddTo? && loadsPc then Return else Plain
  }

  /** A `pop` as read: a return if it loads the program counter, with an entry for each instruction
      of its expansion. */
  function ReadPop(addr: nat, list: seq<nat>): Reading {
    var ops := Expanded(Pop(list));
    Reading(addr, if PC in list then Return else Plain,
            seq(|ops|, k requires 0 <= k < |ops| => SeenAs(ops[k], PC in list)))
  }

  /** The first entry of an expanded return is a load. */
  lemma PopHidesReturn(addr: nat, list: seq<nat>)
    requires PC in list
    ensures var x := ReadPop(addr, list);
            && |x.copies| > 0 && x.kind == Return && x.copies[0] == Plain && x.copies[|x.copies| - 1] == Return
  {
    var ops := Expanded(Pop(list));
    assert ops[0].Ldr?;
    assert ops[|ops| - 1].AddTo?;
  }

  /** Behind every expanded return that is not last there is an edge that the program never takes. */
  lemma ExpandedReturnFallsThrough(isa: Isa, code: seq<Reading>, k: nat, list: seq<nat>)
    requires Separate(code) && WellPlaced(isa, FirstEntries(code)) && k + isa.delay + 1 < |code|
    requires PC in list && code[k] == ReadPop(code[k].addr, list)
    ensures var heads, i := FirstEntries(code), k + isa.delay;
            && !NoHiddenStop(isa, heads)
            && !Step(isa, heads, i, i + 1) && GraphStep(isa, heads, i, i + 1)
  {
    var heads := FirstEntries(code);
    PopHidesReturn(code[k].addr, list);
    assert heads[k].kind == Return && heads[k].seen == Plain;
    hide WellPlaced, ReadPop, FirstEntries, GraphStep, Step, NoHiddenStop;
    HiddenStopIsStray(isa, heads, k);
  }

  /** A function of two instructions: `pop {pc}`, and one that is never executed. */
  function ReturnThenMore(): seq<Reading> {
    [ReadPop(4, [PC]), Reading(8, Plain, [Plain])]
  }

  lemma ReturnThenMoreIsWellPlaced()
    ensures Separate(ReturnThenMore()) && WellPlaced(Isa(4, 0, true), FirstEntries(ReturnThenMore()))
  {
    PopHidesReturn(4, [PC]);
    hide ReadPop;
  }

  /** There the extracted graph joins its two blocks, and the program never steps from one to the other. */
  lemma FalseEdgeBehindReturn()
    ensures var isa, code := Isa(4, 0, true), ReturnThenMore();
            (NodeRef.Node(0), NodeRef.Node(1)) in ProgramEdges(isa, Entries(code))
    ensures Separate(ReturnThenMore()) && !Step(Isa(4, 0, true), FirstEntries(ReturnThenMore()), 0, 1)
  {
    var isa, code := Isa(4, 0, true), ReturnThenMore();
    ReturnThenMoreIsWellPlaced();
    var heads := FirstEntries(code);
    ExpandedReturnFallsThrough(isa, code, 0, [PC]);
    EntriesDoNotMatter(isa, code);
    PopHidesReturn(4, [PC]);
    assert heads == [Instr(4, Return, Plain), Instr(8, Plain, Plain)];
    var leaders := Leaders(isa, heads);
    LeadersAre(isa, heads, 8);
    assert 8 in LeadersOf(isa, heads[0]);
    assert BlockOf(heads, leaders, 0) == 0 && BlockOf(heads, leaders, 1) == 1;
  }
}
