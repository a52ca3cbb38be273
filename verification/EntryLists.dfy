/** The scans over a list of entries do what they would on the first entries alone. */
module EntryLists {
  import opened ExtractionSpec
  import opened Cleaning

  /** As many blocks, and padding in the same places. */
  ghost predicate SameNops(nodes: seq<seq<Instr>>, others: seq<seq<Instr>>) {
    |nodes| == |others| && forall b | 0 <= b < |nodes| :: IsNop(nodes[b]) <==> IsNop(others[b])
  }

  /** The last block is not padding. */
  ghost predicate NoNopLast(nodes: seq<seq<Instr>>) {
    |nodes| > 0 && !IsNop(nodes[|nodes| - 1])
  }

  /** An entry of another entry's address starts no block and makes no edge. */
  lemma FurtherEntry(ins: seq<Instr>, leaders: set<nat>, table: map<nat, nat>, succs: map<nat, set<nat>>, p: nat)
    requires p < |ins| && !NewAddr(ins, p)
    ensures p > 0 && Blocks(ins, leaders, p + 1) == Place(Blocks(ins, leaders, p), false, ins[p])
    ensures Table(ins, leaders, p + 1) == Table(ins, leaders, p)
    ensures ScanEdges(ins, leaders, table, succs, p + 1) == ScanEdges(ins, leaders, table, succs, p)
  {
  }

  /** What both scans have after `p` entries of `ins` and after `q` of `heads` is the same. */
  ghost predicate SameProgress(ins: seq<Instr>, heads: seq<Instr>, leaders: set<nat>, table: map<nat, nat>,
                               succs: map<nat, set<nat>>, p: nat, q: nat)
    requires p <= |ins| && q <= |heads|
  {
    && SameNops(Blocks(ins, leaders, p), Blocks(heads, leaders, q))
    && Table(ins, leaders, p) == Table(heads, leaders, q)
    && ScanEdges(ins, leaders, table, succs, p) == ScanEdges(heads, leaders, table, succs, q)
  }

  /** A further entry makes padding of no block, and comes into one that was none. */
  lemma FurtherKeepsNops(nodes: seq<seq<Instr>>, others: seq<seq<Instr>>, x: Instr)
    requires SameNops(nodes, others) && NoNopLast(others) && |nodes[|nodes| - 1]| > 0
    ensures SameNops(Place(nodes, false, x), others)
  {
  }

  lemma EntryKeepsNops(nodes: seq<seq<Instr>>, others: seq<seq<Instr>>, starts: bool, x: Instr)
    requires SameNops(nodes, others)
    requires !starts ==> |nodes| > 0 && |nodes[|nodes| - 1]| > 0 && |others[|others| - 1]| > 0
    ensures SameNops(Place(nodes, starts, x), Place(others, starts, x))
  {
  }

  lemma SameEntry(ins: seq<Instr>, heads: seq<Instr>, leaders: set<nat>, table: map<nat, nat>,
                  succs: map<nat, set<nat>>, p: nat, q: nat)
    requires p < |ins| && q < |heads| && SameProgress(ins, heads, leaders, table, succs, p, q)
    requires ins[p] == heads[q] && NewAddr(ins, p) && NewAddr(heads, q) && (p == 0 <==> q == 0)
    ensures SameProgress(ins, heads, leaders, table, succs, p + 1, q + 1)
  {
    hide SameNops, IsNop;
    EntryKeepsNops(Blocks(ins, leaders, p), Blocks(heads, leaders, q), StartsBlock(ins, leaders, p), ins[p]);
    SameCount(Blocks(ins, leaders, p), Blocks(heads, leaders, q));
  }

  lemma SameCount(nodes: seq<seq<Instr>>, others: seq<seq<Instr>>)
    requires SameNops(nodes, others)
    ensures |nodes| == |others|
  {
  }

  lemma {:induction false} FurtherEntries(ins: seq<Instr>, heads: seq<Instr>, leaders: set<nat>, table: map<nat, nat>,
                                          succs: map<nat, set<nat>>, p: nat, q: nat, c: nat)
    requires p + c <= |ins| && q <= |heads| && SameProgress(ins, heads, leaders, table, succs, p, q)
    requires forall i | p <= i < p + c :: !NewAddr(ins, i)
    requires c > 0 ==> NoNopLast(Blocks(heads, leaders, q))
    ensures SameProgress(ins, heads, leaders, table, succs, p + c, q)
  {
    hide NewAddr, Blocks, Table, ScanEdges, SameNops, NoNopLast;
    if c > 0 {
      FurtherEntries(ins, heads, leaders, table, succs, p, q, c - 1);
      FurtherEntry(ins, leaders, table, succs, p + c - 1);
      FurtherKeepsNops(Blocks(ins, leaders, p + c - 1), Blocks(heads, leaders, q), ins[p + c - 1]);
    }
  }

  lemma FirstOfEntries(code: seq<Reading>, k: nat)
    requires Separate(code) && k < |code|
    ensures Position(code, k) < |Entries(code)| && (Position(code, k) == 0 <==> k == 0)
    ensures Entries(code)[Position(code, k)] == FirstEntries(code)[k]
    ensures NewAddr(Entries(code), Position(code, k)) && NewAddr(FirstEntries(code), k)
  {
    hide Entries;
    EntryAt(code, k, 0);
    if k == 0 {
      assert Position(code, 0) == 0 by {
        NoEntries(code);
      }
    } else {
      EntryAt(code, k - 1, |code[k - 1].copies| - 1);
    }
  }

  lemma NoEntries(code: seq<Reading>)
    ensures Position(code, 0) == 0
  {
  }

  lemma OtherEntries(code: seq<Reading>, k: nat, i: nat)
    requires Separate(code) && k < |code| && Position(code, k) < i < Position(code, k) + |code[k].copies|
    ensures i < |Entries(code)| && !NewAddr(Entries(code), i)
  {
    hide Entries;
    EntryAt(code, k, i - Position(code, k));
    EntryAt(code, k, i - 1 - Position(code, k));
  }

  lemma NoPaddingOfMore(code: seq<Reading>, leaders: set<nat>, k: nat)
    requires Separate(code) && k < |code| && |code[k].copies| > 1
    ensures NoNopLast(Blocks(FirstEntries(code), leaders, k + 1))
  {
    hide Blocks;
    assert FirstEntries(code)[k].seen == code[k].copies[0];
  }

  /** The entries of one instruction make what its first entry makes. */
  lemma SameReading(code: seq<Reading>, leaders: set<nat>, table: map<nat, nat>, succs: map<nat, set<nat>>, k: nat)
    requires Separate(code) && k < |code| && Position(code, k) <= |Entries(code)|
    requires SameProgress(Entries(code), FirstEntries(code), leaders, table, succs, Position(code, k), k)
    ensures Position(code, k + 1) <= |Entries(code)|
    ensures SameProgress(Entries(code), FirstEntries(code), leaders, table, succs, Position(code, k + 1), k + 1)
  {
    hide Entries, FirstEntries, SameProgress, Position, NewAddr, Separate;
    var p, c := Position(code, k), |code[k].copies|;
    FirstOfEntries(code, k);
    SameEntry(Entries(code), FirstEntries(code), leaders, table, succs, p, k);
    NextPosition(code, k);
    forall i | p + 1 <= i < p + c
      ensures !NewAddr(Entries(code), i)
    {
      OtherEntries(code, k, i);
    }
    if c > 1 {
      NoPaddingOfMore(code, leaders, k);
    }
    FurtherEntries(Entries(code), FirstEntries(code), leaders, table, succs, p + 1, k + 1, c - 1);
  }

  lemma NextPosition(code: seq<Reading>, k: nat)
    requires Separate(code) && k < |code|
    ensures |code[k].copies| > 0 && |FirstEntries(code)| == |code|
    ensures Position(code, k + 1) == Position(code, k) + |code[k].copies| <= |Entries(code)|
  {
    EntryAt(code, k, 0);
  }

  lemma {:induction false} SameScans(code: seq<Reading>, leaders: set<nat>, table: map<nat, nat>,
                                     succs: map<nat, set<nat>>, k: nat)
    requires Separate(code) && k <= |code|
    ensures Position(code, k) <= |Entries(code)|
    ensures SameProgress(Entries(code), FirstEntries(code), leaders, table, succs, Position(code, k), k)
  {
    if k == 0 {
      NoEntries(code);
    } else {
      SameScans(code, leaders, table, succs, k - 1);
      SameReading(code, leaders, table, succs, k - 1);
    }
  }

  lemma {:induction false} SameRecord(isa: Isa, code: seq<Reading>)
    requires Separate(code)
    ensures Leaders(isa, Entries(code)) == Leaders(isa, FirstEntries(code))
    ensures Successors(isa, Entries(code)) == Successors(isa, FirstEntries(code))
  {
    if code != [] {
      var init, x := code[..|code| - 1], code[|code| - 1];
      SameRecord(isa, init);
      RecordedOnce(isa, Entries(init), x, |x.copies|);
      assert EntriesOf(x)[..|x.copies|] == EntriesOf(x);
      OneMoreInstruction(isa, FirstEntries(init), EntriesOf(x)[0]);
      assert FirstEntries(code) == FirstEntries(init) + [EntriesOf(x)[0]];
      hide Leaders, Successors;
    }
  }

  lemma SameNopBlocks(nodes: seq<seq<Instr>>, others: seq<seq<Instr>>)
    requires SameNops(nodes, others)
    ensures |nodes| == |others| && NopBlocks(nodes) == NopBlocks(others)
  {
    hide IsNop;
  }

  /** The extraction from the entries is that from the first entries: blocks, address map, edges as
      created and edges after cleaning. */
  lemma EntriesDoNotMatter(isa: Isa, code: seq<Reading>)
    requires Separate(code)
    ensures var ins, heads := Entries(code), FirstEntries(code);
            && |Blocks(ins, Leaders(isa, ins), |ins|)| == |Blocks(heads, Leaders(isa, heads), |heads|)|
            && Table(ins, Leaders(isa, ins), |ins|) == Table(heads, Leaders(isa, heads), |heads|)
            && ProgramEdges(isa, ins) == ProgramEdges(isa, heads)
            && FinalEdges(isa, ins) == FinalEdges(isa, heads)
  {
    var ins, heads := Entries(code), FirstEntries(code);
    var leaders, succs := Leaders(isa, ins), Successors(isa, ins);
    SameRecord(isa, code);
    assert code[..|code|] == code;
    SameScans(code, leaders, Table(heads, leaders, |heads|), succs, |code|);
    SameNopBlocks(Blocks(ins, leaders, |ins|), Blocks(heads, leaders, |heads|));
    hide Entries, Blocks, Table, ScanEdges, Leaders, Successors, NopBlocks, CleanTo, SameNops;
  }
}
