/** ARM multiple loads and stores and their expansion into simple instructions. */
module BlockTransferSpec {
  /** Register numbers index the register file; 13 is the stack pointer. A register that does not
      exist and a word that was never written read as zero. */
  const SP: nat := 13

  datatype Machine = Machine(regs: seq<int>, mem: map<int, int>)

  /** Sixteen registers of 32 bits. */
  ghost predicate IsArm(m: Machine) {
    |m.regs| == 16 && forall r | 0 <= r < 16 :: 0 <= m.regs[r] < 0x1_0000_0000
  }

  /** Address arithmetic wraps around at 32 bits. */
  function Wrap(x: int): int
    decreases x < 0, if x < 0 then -x else x
  {
    if x < 0 then Wrap(x + 0x1_0000_0000)
    else if x >= 0x1_0000_0000 then Wrap(x - 0x1_0000_0000)
    else x
  }

  function Reg(m: Machine, r: nat): int {
    if r < |m.regs| then m.regs[r] else 0
  }

  function Load(m: Machine, a: int): int {
    if a in m.mem then m.mem[a] else 0
  }

  function SetReg(m: Machine, r: nat, v: int): Machine {
    if r < |m.regs| then m.(regs := m.regs[r := v]) else m
  }

  function Store(m: Machine, a: int, v: int): Machine {
    m.(mem := m.mem[a := v])
  }

  // ---- The simple instructions

  /** `rd = rn + imm`, and word transfers at `[rn, offset]`. */
  datatype Op = AddTo(rd: nat, rn: nat, imm: int) | Ldr(rd: nat, rn: nat, offset: int) | Str(rd: nat, rn: nat, offset: int)

  function Execute(m: Machine, op: Op): Machine {
    match op
    case AddTo(rd, rn, imm) => SetReg(m, rd, Wrap(Reg(m, rn) + imm))
    case Ldr(rd, rn, offset) => SetReg(m, rd, Load(m, Wrap(Reg(m, rn) + offset)))
    case Str(rd, rn, offset) => Store(m, Wrap(Reg(m, rn) + offset), Reg(m, rd))
  }

  /** The machine after the first `k` of `ops`. */
  function RunTo(m: Machine, ops: seq<Op>, k: nat): Machine
    requires k <= |ops|
  {
    if k == 0 then m else Execute(RunTo(m, ops, k - 1), ops[k - 1])
  }

  function Run(m: Machine, ops: seq<Op>): Machine {
    RunTo(m, ops, |ops|)
  }

  lemma {:induction false} RunPrefix(m: Machine, p: seq<Op>, q: seq<Op>, k: nat)
    requires k <= |p| && k <= |q| && forall t | 0 <= t < k :: p[t] == q[t]
    ensures RunTo(m, p, k) == RunTo(m, q, k)
  {
    if k > 0 {
      RunPrefix(m, p, q, k - 1);
    }
  }

  lemma {:induction false} RunAfterFirst(m: Machine, op: Op, q: seq<Op>, k: nat)
    requires k <= |q|
    ensures RunTo(m, [op] + q, k + 1) == RunTo(Execute(m, op), q, k)
  {
    if k == 0 {
      assert RunTo(m, [op] + q, 0) == m;
    } else {
      RunAfterFirst(m, op, q, k - 1);
    }
  }

  // ---- The multiple transfers

  /** `LDM`/`STM` with base register `base`: increment or decrement, after or before, write back. */
  datatype Multiple = Multiple(load: bool, base: nat, list: seq<nat>, increment: bool, after: bool, writeBack: bool)

  /** A register list names registers in ascending order. */
  predicate IsRegisterList(list: seq<nat>) {
    && (forall i | 0 <= i < |list| :: list[i] < 16)
    && (forall i, j | 0 <= i < j < |list| :: list[i] < list[j])
  }

  /** The offset from the base of the lowest address transferred. */
  function LowestOffset(i: Multiple): int {
    if i.increment then (if i.after then 0 else 4)
    else if i.after then 4 - 4 * |i.list| else -4 * |i.list|
  }

  /** The first `k` registers stored at, or loaded from, consecutive words from `start` on. */
  function Transfer(m: Machine, load: bool, start: int, list: seq<nat>, k: nat): Machine
    requires k <= |list|
  {
    if k == 0 then m
    else
      var before := Transfer(m, load, start, list, k - 1);
      var a := Wrap(start + 4 * (k - 1));
      if load then SetReg(before, list[k - 1], Load(m, a)) else Store(before, a, Reg(m, list[k - 1]))
  }

  /** How far the base moves: four bytes a register. */
  function BaseMove(i: Multiple): int {
    if i.increment then 4 * |i.list| else -4 * |i.list|
  }

  function WriteBack(after: Machine, before: Machine, base: nat, writeBack: bool, d: int): Machine {
    if writeBack && d != 0 then SetReg(after, base, Wrap(Reg(before, base) + d)) else after
  }

  /** The lowest register goes with the lowest address. */
  function Architectural(m: Machine, i: Multiple): Machine {
    WriteBack(Transfer(m, i.load, Reg(m, i.base) + LowestOffset(i), i.list, |i.list|), m, i.base, i.writeBack, BaseMove(i))
  }

  // ---- What the extractor emits

  function Simple(load: bool, r: nat, base: nat, offset: int): Op {
    if load then Ldr(r, base, offset) else Str(r, base, offset)
  }

  /** Simple transfers at `low` and then four bytes up or down a register. */
  function SimpleOps(load: bool, base: nat, low: int, up: bool, list: seq<nat>): (ops: seq<Op>)
    ensures |ops| == |list|
  {
    seq(|list|, t requires 0 <= t < |list| => Simple(load, list[t], base, low + if up then 4 * t else -4 * t))
  }

  /** `push`: the stack pointer first, then upwards from it. */
  function ExpandedPush(base: nat, list: seq<nat>): seq<Op> {
    [AddTo(base, base, -4 * |list|)] + SimpleOps(false, base, 0, true, list)
  }

  function BaseOps(base: nat, writeBack: bool, d: int): seq<Op> {
    if writeBack && d != 0 then [AddTo(base, base, d)] else []
  }

  function FirstOffset(i: Multiple): int {
    if i.after then 0 else if i.increment then 4 else -4
  }

  /** The other forms: from the base in the direction of the form, then the base. */
  function Expanded(i: Multiple): seq<Op> {
    SimpleOps(i.load, i.base, FirstOffset(i), i.increment, i.list) + BaseOps(i.base, i.writeBack, BaseMove(i))
  }

  // ---- Increment forms and push agree with the architecture

  lemma WrapAround(x: int)
    ensures Wrap(x + 0x1_0000_0000) == Wrap(x)
  {
  }

  lemma {:induction false} WrapAdd(x: int, y: int)
    ensures Wrap(Wrap(x) + y) == Wrap(x + y)
    decreases x < 0, if x < 0 then -x else x
  {
    if x < 0 {
      WrapAdd(x + 0x1_0000_0000, y);
      WrapAround(x + y);
    } else if x >= 0x1_0000_0000 {
      WrapAdd(x - 0x1_0000_0000, y);
      WrapAround(x - 0x1_0000_0000 + y);
    }
  }

  /** The first `k` transfers do not overwrite the base. */
  predicate KeepsBase(load: bool, base: nat, list: seq<nat>, k: nat)
    requires k <= |list|
  {
    load ==> forall t | 0 <= t < k :: list[t] != base
  }

  lemma {:induction false} TransferKeepsBase(m: Machine, load: bool, start: int, list: seq<nat>, k: nat, base: nat)
    requires k <= |list| && KeepsBase(load, base, list, k)
    ensures Reg(Transfer(m, load, start, list, k), base) == Reg(m, base)
  {
    if k > 0 {
      TransferKeepsBase(m, load, start, list, k - 1, base);
    }
  }

  lemma {:induction false} TransferFrames(m: Machine, load: bool, start: int, list: seq<nat>, k: nat)
    requires k <= |list|
    ensures load ==> Transfer(m, load, start, list, k).mem == m.mem
    ensures !load ==> Transfer(m, load, start, list, k).regs == m.regs
  {
    if k > 0 {
      TransferFrames(m, load, start, list, k - 1);
    }
  }

  /** Simple transfers upwards from `base + low` move the same words, as long as the base is not
      overwritten before the last of them. */
  lemma {:induction false} SimpleTransfers(m: Machine, load: bool, base: nat, low: int, list: seq<nat>, k: nat)
    requires k <= |list| && (k > 0 ==> KeepsBase(load, base, list, k - 1))
    ensures RunTo(m, SimpleOps(load, base, low, true, list), k) == Transfer(m, load, Reg(m, base) + low, list, k)
  {
    hide Execute, Wrap;
    if k > 0 {
      SimpleTransfers(m, load, base, low, list, k - 1);
      var before := Transfer(m, load, Reg(m, base) + low, list, k - 1);
      TransferKeepsBase(m, load, Reg(m, base) + low, list, k - 1, base);
      TransferFrames(m, load, Reg(m, base) + low, list, k - 1);
      TransferOne(m, before, load, base, low + 4 * (k - 1), list[k - 1]);
      assert SimpleOps(load, base, low, true, list)[k - 1] == Simple(load, list[k - 1], base, low + 4 * (k - 1));
      assert Reg(m, base) + low + 4 * (k - 1) == Reg(m, base) + (low + 4 * (k - 1));
    }
  }

  /** One simple transfer, when neither the base nor what it reads has changed. */
  lemma TransferOne(m: Machine, before: Machine, load: bool, base: nat, offset: int, r: nat)
    requires Reg(before, base) == Reg(m, base)
    requires if load then before.mem == m.mem else before.regs == m.regs
    ensures Execute(before, Simple(load, r, base, offset)) ==
            var a := Wrap(Reg(m, base) + offset);
            if load then SetReg(before, r, Load(m, a)) else Store(before, a, Reg(m, r))
  {
  }

  lemma BaseMoves(m: Machine, ops: seq<Op>, base: nat, writeBack: bool, d: int)
    requires writeBack ==> Reg(Run(m, ops), base) == Reg(m, base)
    ensures Run(m, ops + BaseOps(base, writeBack, d)) == WriteBack(Run(m, ops), m, base, writeBack, d)
  {
    RunPrefix(m, ops, ops + BaseOps(base, writeBack, d), |ops|);
  }

  /** The architecture says what the instruction does: it does not write back to a base that it loads. */
  ghost predicate Defined(i: Multiple) {
    IsRegisterList(i.list) && i.base < 16 && !(i.load && i.writeBack && i.base in i.list)
  }

  /** A load reads its base no more once it has overwritten it. */
  ghost predicate BaseLast(i: Multiple) {
    |i.list| > 0 ==> KeepsBase(i.load, i.base, i.list, |i.list| - 1)
  }

  /** The increment forms do what the architecture says, unless a load goes on after its base is overwritten. */
  lemma IncrementAgrees(m: Machine, i: Multiple)
    requires i.increment && BaseLast(i) && (i.load && i.writeBack ==> i.base !in i.list)
    ensures Run(m, Expanded(i)) == Architectural(m, i)
  {
    var low := FirstOffset(i);
    SimpleTransfers(m, i.load, i.base, low, i.list, |i.list|);
    if i.writeBack {
      TransferKeepsBase(m, i.load, Reg(m, i.base) + low, i.list, |i.list|, i.base);
    }
    BaseMoves(m, SimpleOps(i.load, i.base, low, true, i.list), i.base, i.writeBack, BaseMove(i));
  }

  /** Storing other registers after the base has moved: the same words at the same addresses. */
  lemma {:induction false} StoresFromMovedBase(m: Machine, moved: Machine, start: int, d: int, list: seq<nat>, k: nat)
    requires k <= |list| && moved.mem == m.mem
    requires forall r | r in list :: Reg(moved, r) == Reg(m, r)
    ensures Transfer(moved, false, Wrap(start + d), list, k).mem == Transfer(m, false, start + d, list, k).mem
  {
    if k > 0 {
      StoresFromMovedBase(m, moved, start, d, list, k - 1);
      WrapAdd(start + d, 4 * (k - 1));
      assert list[k - 1] in list;
    }
  }

  /** The stack pointer of a push moved. */
  function Moved(m: Machine, list: seq<nat>): Machine {
    Execute(m, AddTo(SP, SP, -4 * |list|))
  }

  /** An expanded push is a move of the base and then stores upwards from it. */
  lemma PushIsTransfer(m: Machine, list: seq<nat>)
    requires SP !in list
    ensures Run(m, ExpandedPush(SP, list))
            == Transfer(Moved(m, list), false, Reg(Moved(m, list), SP) + 0, list, |list|)
  {
    hide Wrap, Execute, RunTo, Transfer, Reg;
    var first, ops := AddTo(SP, SP, -4 * |list|), SimpleOps(false, SP, 0, true, list);
    assert ExpandedPush(SP, list) == [first] + ops && |[first] + ops| == |list| + 1;
    RunAfterFirst(m, first, ops, |list|);
    SimpleTransfers(Moved(m, list), false, SP, 0, list, |list|);
  }

  lemma PushMemory(m: Machine, list: seq<nat>)
    requires SP !in list && SP < |m.regs|
    ensures var d := -4 * |list|;
            Run(m, ExpandedPush(SP, list)) ==
            Machine(m.regs[SP := Wrap(Reg(m, SP) + d)], Transfer(m, false, Reg(m, SP) + d, list, |list|).mem)
  {
    var d := -4 * |list|;
    var moved := Moved(m, list);
    assert moved == SetReg(m, SP, Wrap(Reg(m, SP) + d));
    PushIsTransfer(m, list);
    TransferFrames(moved, false, Reg(moved, SP), list, |list|);
    StoresFromMovedBase(m, moved, Reg(m, SP), d, list, |list|);
  }

  /** `push` is the store that decrements the stack pointer before. */
  lemma PushAgrees(m: Machine, list: seq<nat>)
    requires IsArm(m) && SP !in list
    ensures Run(m, ExpandedPush(SP, list)) == Architectural(m, Multiple(false, SP, list, false, false, true))
  {
    var d := -4 * |list|;
    PushMemory(m, list);
    TransferFrames(m, false, Reg(m, SP) + d, list, |list|);
    assert d == 0 ==> m.regs[SP := Wrap(Reg(m, SP) + d)] == m.regs;
  }

  // ---- At most one register: every form agrees

  /** With a single register (or none) all forms agree with the architecture. */
  lemma ShortListAgrees(m: Machine, i: Multiple)
    requires |i.list| <= 1 && (i.load && i.writeBack ==> i.base !in i.list)
    ensures Run(m, Expanded(i)) == Architectural(m, i)
  {
    var low, k := FirstOffset(i), |i.list|;
    SameDirection(i.load, i.base, low, i.list);
    SimpleTransfers(m, i.load, i.base, low, i.list, k);
    if i.writeBack {
      TransferKeepsBase(m, i.load, Reg(m, i.base) + low, i.list, k, i.base);
    }
    BaseMoves(m, SimpleOps(i.load, i.base, low, true, i.list), i.base, i.writeBack, BaseMove(i));
    SameStart(m, i);
  }

  lemma SameStart(m: Machine, i: Multiple)
    requires |i.list| <= 1
    ensures Transfer(m, i.load, Reg(m, i.base) + FirstOffset(i), i.list, |i.list|)
            == Transfer(m, i.load, Reg(m, i.base) + LowestOffset(i), i.list, |i.list|)
  {
  }

  /** One transfer has no direction. */
  lemma SameDirection(load: bool, base: nat, low: int, list: seq<nat>)
    requires |list| <= 1
    ensures SimpleOps(load, base, low, false, list) == SimpleOps(load, base, low, true, list)
  {
  }

  /** What a transfer leaves in the registers or words it has reached. */
  lemma {:induction false} LoadedRegister(m: Machine, start: int, list: seq<nat>, k: nat, t: nat)
    requires IsRegisterList(list) && |m.regs| == 16 && t < k <= |list|
    ensures Reg(Transfer(m, true, start, list, k), list[t]) == Load(m, Wrap(start + 4 * t))
    ensures |Transfer(m, true, start, list, k).regs| == 16
  {
    TransferSize(m, true, start, list, k - 1);
    if t < k - 1 {
      LoadedRegister(m, start, list, k - 1, t);
    }
  }

  lemma {:induction false} TransferSize(m: Machine, load: bool, start: int, list: seq<nat>, k: nat)
    requires k <= |list|
    ensures |Transfer(m, load, start, list, k).regs| == |m.regs|
  {
    if k > 0 {
      TransferSize(m, load, start, list, k - 1);
    }
  }

  lemma {:induction false} WrapDistinct(x: int, y: int)
    requires 0 < y - x < 0x1_0000_0000
    ensures Wrap(x) != Wrap(y)
    decreases x < 0, if x < 0 then -x else x
  {
    if x < 0 {
      WrapDistinct(x + 0x1_0000_0000, y + 0x1_0000_0000);
      WrapAround(y);
    } else if x >= 0x1_0000_0000 {
      WrapDistinct(x - 0x1_0000_0000, y - 0x1_0000_0000);
      WrapAround(y - 0x1_0000_0000);
    }
  }

  lemma {:induction false} StoredWord(m: Machine, start: int, list: seq<nat>, k: nat, t: nat)
    requires t < k <= |list| <= 16
    ensures Load(Transfer(m, false, start, list, k), Wrap(start + 4 * t)) == Reg(m, list[t])
  {
    if t < k - 1 {
      StoredWord(m, start, list, k - 1, t);
      WrapDistinct(start + 4 * t, start + 4 * (k - 1));
    }
  }

  lemma {:induction false} ListFits(list: seq<nat>)
    requires IsRegisterList(list)
    ensures |list| <= 16
  {
    if |list| > 0 {
      ListBelow(list, |list|);
    }
  }

  lemma {:induction false} ListBelow(list: seq<nat>, k: nat)
    requires IsRegisterList(list) && 0 < k <= |list|
    ensures list[k - 1] >= k - 1
  {
    if k > 1 {
      ListBelow(list, k - 1);
    }
  }

  /** Loading back what was stored. */
  lemma LoadsWhatWasStored(m: Machine, pushed: Machine, start: int, list: seq<nat>, t: nat)
    requires IsRegisterList(list) && |pushed.regs| == 16 && t < |list|
    requires pushed.mem == Transfer(m, false, start, list, |list|).mem
    ensures Reg(Transfer(pushed, true, Wrap(start), list, |list|), list[t]) == Reg(m, list[t])
  {
    ListFits(list);
    var a := Wrap(start + 4 * t);
    WrapAdd(start, 4 * t);
    StoredWord(m, start, list, |list|, t);
    assert Load(pushed, a) == Reg(m, list[t]);
    LoadedRegister(pushed, Wrap(start), list, |list|, t);
  }

  lemma OtherRegister(m: Machine, r: nat, q: nat, v: int)
    ensures q != r ==> Reg(SetReg(m, r, v), q) == Reg(m, q)
    ensures r < |m.regs| ==> Reg(SetReg(m, r, v), r) == v
  {
  }

  lemma SameRegisters(m: Machine, m': Machine)
    requires |m.regs| == |m'.regs| == 16 && forall r: nat | r < 16 :: Reg(m, r) == Reg(m', r)
    ensures m.regs == m'.regs
  {
    assert forall r: nat | r < 16 :: m.regs[r] == Reg(m, r) == Reg(m', r) == m'.regs[r];
  }

  lemma PopIsTransfer(m: Machine, list: seq<nat>)
    requires SP !in list
    ensures Run(m, Expanded(Multiple(true, SP, list, true, true, true)))
            == WriteBack(Transfer(m, true, Reg(m, SP), list, |list|), m, SP, true, 4 * |list|)
  {
    IncrementAgrees(m, Multiple(true, SP, list, true, true, true));
    hide Transfer, WriteBack, Expanded;
  }

  /** An expanded push followed by an expanded pop of the same registers restores all registers. */
  lemma PopUndoesPush(m: Machine, list: seq<nat>)
    requires IsArm(m) && IsRegisterList(list) && SP !in list
    ensures var pushed := Run(m, ExpandedPush(SP, list));
            var popped := Run(pushed, Expanded(Multiple(true, SP, list, true, true, true)));
            popped.regs == m.regs && popped.mem == pushed.mem
  {
    var n, pushed := |list|, Run(m, ExpandedPush(SP, list));
    var start := Reg(m, SP) - 4 * n;
    PushMemory(m, list);
    PopIsTransfer(pushed, list);
    hide Run, ExpandedPush, Expanded, Transfer, Wrap;
    var loaded := Transfer(pushed, true, Wrap(start), list, n);
    TransferFrames(pushed, true, Wrap(start), list, n);
    TransferSize(pushed, true, Wrap(start), list, n);
    forall r: nat | r < 16
      ensures Reg(WriteBack(loaded, pushed, SP, true, 4 * n), r) == Reg(m, r)
    {
      PoppedRegister(m, pushed, list, start, r);
    }
    SameRegisters(WriteBack(loaded, pushed, SP, true, 4 * n), m);
  }

  lemma PoppedRegister(m: Machine, pushed: Machine, list: seq<nat>, start: int, r: nat)
    requires IsArm(m) && IsRegisterList(list) && SP !in list && r < 16 && start == Reg(m, SP) - 4 * |list|
    requires pushed == Machine(m.regs[SP := Wrap(start)], Transfer(m, false, start, list, |list|).mem)
    ensures Reg(WriteBack(Transfer(pushed, true, Wrap(start), list, |list|), pushed, SP, true, 4 * |list|), r) == Reg(m, r)
  {
    hide Transfer, Load, Store;
    var loaded := Transfer(pushed, true, Wrap(start), list, |list|);
    TransferSize(pushed, true, Wrap(start), list, |list|);
    OtherRegister(loaded, SP, r, Wrap(Wrap(start) + 4 * |list|));
    if r in list {
      var t :| 0 <= t < |list| && list[t] == r;
      LoadsWhatWasStored(m, pushed, start, list, t);
    } else {
      TransferKeepsBase(pushed, true, Wrap(start), list, |list|, r);
      WrapAdd(start, 4 * |list|);
    }
  }

  // ---- The decrement forms put the registers in the opposite order

  /** A machine on which a decrement form shows its order: the base at 1000, and a one that the
      architecture moves through the lowest address, to or from the lowest register. */
  function Witness(i: Multiple): Machine
    requires |i.list| > 0
  {
    Machine(seq(16, r => if r == i.base then 1000 else if !i.load && r == i.list[0] then 1 else 0),
            if i.load then map[1000 + LowestOffset(i) := 1] else map[])
  }

  /** What simple downward transfers load or store. */
  lemma {:induction false} DownwardLoad(m: Machine, base: nat, low: int, list: seq<nat>, k: nat)
    requires IsRegisterList(list) && |m.regs| == 16 && 0 < k <= |list|
    ensures var r := RunTo(m, SimpleOps(true, base, low, false, list), k);
            && Reg(r, list[0]) == Load(m, Wrap(Reg(m, base) + low)) && r.mem == m.mem
            && (base !in list ==> Reg(r, base) == Reg(m, base))
  {
    if k > 1 {
      DownwardLoad(m, base, low, list, k - 1);
    } else {
      assert RunTo(m, SimpleOps(true, base, low, false, list), 0) == m;
    }
  }

  lemma {:induction false} DownwardStore(m: Machine, base: nat, low: int, list: seq<nat>, k: nat)
    requires k <= |list|
    ensures var r := RunTo(m, SimpleOps(false, base, low, false, list), k);
            r.regs == m.regs &&
            (k > 0 ==> Load(r, Wrap(Reg(m, base) + low - 4 * (k - 1))) == Reg(m, list[k - 1]))
  {
    if k > 0 {
      DownwardStore(m, base, low, list, k - 1);
    }
  }

  /** Each register gets the word that many words below the first. */
  lemma {:induction false} DownwardLoads(m: Machine, base: nat, low: int, list: seq<nat>, k: nat, t: nat)
    requires IsRegisterList(list) && |m.regs| == 16 && base !in list && t < k <= |list|
    ensures var r := RunTo(m, SimpleOps(true, base, low, false, list), k);
            && Reg(r, list[t]) == Load(m, Wrap(Reg(m, base) + (low - 4 * t)))
            && r.mem == m.mem && Reg(r, base) == Reg(m, base) && |r.regs| == 16
  {
    var ops := SimpleOps(true, base, low, false, list);
    var before := RunTo(m, ops, k - 1);
    assert RunTo(m, ops, k) == Execute(before, Ldr(list[k - 1], base, low - 4 * (k - 1)));
    if t < k - 1 {
      hide Wrap, Load, SimpleOps, RunTo, Reg, SetReg;
      DownwardLoads(m, base, low, list, k - 1, t);
      DownwardSize(m, base, low, list, k - 1);
      OtherRegister(before, list[k - 1], list[t], Load(before, Wrap(Reg(before, base) + (low - 4 * (k - 1)))));
      OtherRegister(before, list[k - 1], base, Load(before, Wrap(Reg(before, base) + (low - 4 * (k - 1)))));
    } else {
      DownwardBase(m, base, low, list, k - 1);
      hide Wrap, SimpleOps, RunTo;
    }
  }

  lemma {:induction false} DownwardBase(m: Machine, base: nat, low: int, list: seq<nat>, k: nat)
    requires |m.regs| == 16 && base !in list && k <= |list|
    ensures var r := RunTo(m, SimpleOps(true, base, low, false, list), k);
            Reg(r, base) == Reg(m, base) && r.mem == m.mem && |r.regs| == 16
  {
    if k > 0 {
      DownwardBase(m, base, low, list, k - 1);
    }
  }

  lemma DownwardSize(m: Machine, base: nat, low: int, list: seq<nat>, k: nat)
    requires |m.regs| == 16 && base !in list && k <= |list|
    ensures |RunTo(m, SimpleOps(true, base, low, false, list), k).regs| == 16
  {
    DownwardBase(m, base, low, list, k);
  }

  /** One store downwards; the registers stay as they are. */
  lemma StoreStep(m: Machine, base: nat, low: int, list: seq<nat>, k: nat)
    requires k < |list|
    ensures var ops := SimpleOps(false, base, low, false, list);
            var before := RunTo(m, ops, k);
            RunTo(m, ops, k + 1) == Store(before, Wrap(Reg(before, base) + (low - 4 * k)), Reg(before, list[k]))
  {
    hide Wrap, Reg, Load, Store;
  }

  lemma OtherWord(m: Machine, a: int, b: int, v: int)
    ensures Load(Store(m, a, v), a) == v
    ensures a != b ==> Load(Store(m, a, v), b) == Load(m, b)
  {
  }

  /** Each register is stored that many words below the first. */
  lemma {:induction false} DownwardStores(m: Machine, base: nat, low: int, list: seq<nat>, k: nat, t: nat)
    requires t < k <= |list| <= 16
    ensures var r := RunTo(m, SimpleOps(false, base, low, false, list), k);
            Load(r, Wrap(Reg(m, base) + (low - 4 * t))) == Reg(m, list[t]) && r.regs == m.regs
  {
    var before := RunTo(m, SimpleOps(false, base, low, false, list), k - 1);
    DownwardStore(m, base, low, list, k - 1);
    SameFile(before, m, base);
    SameFile(before, m, list[k - 1]);
    DownwardStore(m, base, low, list, k);
    hide Wrap, SimpleOps, RunTo, Reg, Store, Load;
    StoreStep(m, base, low, list, k - 1);
    OtherWord(before, Wrap(Reg(m, base) + (low - 4 * (k - 1))), Wrap(Reg(m, base) + (low - 4 * t)), Reg(m, list[k - 1]));
    if t < k - 1 {
      DownwardStores(m, base, low, list, k - 1, t);
      WrapDistinct(Reg(m, base) + (low - 4 * (k - 1)), Reg(m, base) + (low - 4 * t));
    }
  }

  lemma SameFile(m: Machine, other: Machine, r: nat)
    requires m.regs == other.regs
    ensures Reg(m, r) == Reg(other, r)
  {
  }

  /** What simple downward transfers do with each register. */
  lemma DownwardGives(m: Machine, i: Multiple, low: int, t: nat)
    requires IsArm(m) && Defined(i) && i.base !in i.list && t < |i.list|
    ensures var r, a := Run(m, SimpleOps(i.load, i.base, low, false, i.list)), Wrap(Reg(m, i.base) + (low - 4 * t));
            && (if i.load then Reg(r, i.list[t]) == Load(m, a) else Load(r, a) == Reg(m, i.list[t]))
            && Reg(r, i.base) == Reg(m, i.base) && |r.regs| == 16
  {
    ListFits(i.list);
    hide Wrap, RunTo, Reg, Load, SimpleOps;
    if i.load {
      DownwardLoads(m, i.base, low, i.list, |i.list|, t);
    } else {
      DownwardStores(m, i.base, low, i.list, |i.list|, t);
      SameFile(Run(m, SimpleOps(i.load, i.base, low, false, i.list)), m, i.base);
    }
  }

  /** What the expanded decrement forms do with each register: going down from the base, four bytes a
      register, at the base itself or from four bytes below it. */
  lemma DecrementGives(m: Machine, i: Multiple, t: nat)
    requires IsArm(m) && Defined(i) && !i.increment && i.base !in i.list && t < |i.list|
    ensures var r := Run(m, Expanded(i));
            var a := Wrap(Reg(m, i.base) + if i.after then -4 * t else -4 * (t + 1));
            && (if i.load then Reg(r, i.list[t]) == Load(m, a) else Load(r, a) == Reg(m, i.list[t]))
            && Reg(r, i.base) == if i.writeBack then Wrap(Reg(m, i.base) - 4 * |i.list|) else Reg(m, i.base)
  {
    var low := FirstOffset(i);
    var ops := SimpleOps(i.load, i.base, low, false, i.list);
    var r := Run(m, ops);
    assert low - 4 * t == if i.after then -4 * t else -4 * (t + 1);
    assert BaseMove(i) == -4 * |i.list|;
    hide Run, SimpleOps, Load, Wrap, Reg, SetReg, BaseOps, FirstOffset, BaseMove;
    DownwardGives(m, i, low, t);
    BaseMoves(m, ops, i.base, i.writeBack, BaseMove(i));
    OtherRegister(r, i.base, i.list[t], Wrap(Reg(m, i.base) + BaseMove(i)));
    SameMemory(r, i.base, Wrap(Reg(m, i.base) + BaseMove(i)), Wrap(Reg(m, i.base) + (low - 4 * t)));
  }

  lemma SameMemory(m: Machine, r: nat, v: int, a: int)
    ensures Load(SetReg(m, r, v), a) == Load(m, a)
    ensures r < |m.regs| ==> Reg(SetReg(m, r, v), r) == v
  {
  }

  ghost predicate IsLongDecrement(i: Multiple) {
    !i.increment && Defined(i) && |i.list| > 1
  }

  lemma WitnessIsArm(i: Multiple)
    requires IsLongDecrement(i)
    ensures IsArm(Witness(i)) && Reg(Witness(i), i.base) == 1000
    ensures 1 < |i.list| <= 16 && LowestOffset(i) == FirstOffset(i) - 4 * (|i.list| - 1)
  {
    ListFits(i.list);
  }

  lemma ExpandedWitnessLoad(i: Multiple)
    requires IsLongDecrement(i) && i.load
    ensures Reg(Run(Witness(i), Expanded(i)), i.list[0]) == 0
  {
    var m, low := Witness(i), FirstOffset(i);
    WitnessIsArm(i);
    DownwardLoad(m, i.base, low, i.list, |i.list|);
    BaseMoves(m, SimpleOps(true, i.base, low, false, i.list), i.base, i.writeBack, BaseMove(i));
    assert Load(m, 1000 + low) == 0;
  }

  lemma ArchitecturalWitnessLoad(i: Multiple)
    requires IsLongDecrement(i) && i.load
    ensures Reg(Architectural(Witness(i), i), i.list[0]) == 1
  {
    WitnessIsArm(i);
    LoadedRegister(Witness(i), 1000 + LowestOffset(i), i.list, |i.list|, 0);
  }

  /** The lowest address gets the last register instead of the first. */
  lemma ExpandedWitnessStore(i: Multiple)
    requires IsLongDecrement(i) && !i.load
    ensures Load(Run(Witness(i), Expanded(i)), 1000 + LowestOffset(i)) == Reg(Witness(i), i.list[|i.list| - 1])
  {
    var m, n, low := Witness(i), |i.list|, FirstOffset(i);
    WitnessIsArm(i);
    DownwardStore(m, i.base, low, i.list, n);
    BaseMoves(m, SimpleOps(false, i.base, low, false, i.list), i.base, i.writeBack, BaseMove(i));
  }

  lemma ArchitecturalWitnessStore(i: Multiple)
    requires IsLongDecrement(i) && !i.load
    ensures Load(Architectural(Witness(i), i), 1000 + LowestOffset(i)) == Reg(Witness(i), i.list[0])
  {
    WitnessIsArm(i);
    StoredWord(Witness(i), 1000 + LowestOffset(i), i.list, |i.list|, 0);
  }

  /** The expansion of a decrement form agrees with the architecture on every machine
      if and only if the list names at most one register. */
  lemma DecrementAgreesIffShort(i: Multiple)
    requires !i.increment && Defined(i)
    ensures (forall m | IsArm(m) :: Run(m, Expanded(i)) == Architectural(m, i)) <==> |i.list| <= 1
  {
    if |i.list| <= 1 {
      forall m | IsArm(m)
        ensures Run(m, Expanded(i)) == Architectural(m, i)
      {
        ShortListAgrees(m, i);
      }
    } else {
      WitnessIsArm(i);
      if i.load {
        ExpandedWitnessLoad(i);
        ArchitecturalWitnessLoad(i);
      } else {
        ExpandedWitnessStore(i);
        ArchitecturalWitnessStore(i);
        assert i.list[0] < i.list[|i.list| - 1];
        assert Reg(Witness(i), i.list[0]) != Reg(Witness(i), i.list[|i.list| - 1]);
      }
    }
  }

  // ---- Loads that go on after they have overwritten their base

  /** A machine on which such a load shows it: the base at 1000, where the word for the base is 3000
      and the next one is one. Register `t` of the list is the base. */
  function BaseWitness(i: Multiple, t: nat): Machine {
    var a := 1000 + FirstOffset(i) + 4 * t;
    Machine(seq(16, r => if r == i.base then 1000 else 0), map[a := 3000, a + 4 := 1])
  }

  /** One load upwards from wherever the base is by then. */
  lemma LoadStep(m: Machine, base: nat, low: int, list: seq<nat>, k: nat)
    requires k < |list|
    ensures var ops := SimpleOps(true, base, low, true, list);
            var before := RunTo(m, ops, k);
            RunTo(m, ops, k + 1) == SetReg(before, list[k], Load(before, Wrap(Reg(before, base) + (low + 4 * k))))
  {
    hide Wrap, Reg, Load, SetReg;
  }

  /** Loads leave alone the registers that come before in the list. */
  lemma {:induction false} LaterLoads(m: Machine, base: nat, low: int, list: seq<nat>, t: nat, k: nat)
    requires IsRegisterList(list) && t < k <= |list|
    ensures Reg(RunTo(m, SimpleOps(true, base, low, true, list), k), list[t])
            == Reg(RunTo(m, SimpleOps(true, base, low, true, list), t + 1), list[t])
  {
    hide Wrap, Load, Reg, SetReg, RunTo, SimpleOps;
    if t + 1 < k {
      LaterLoads(m, base, low, list, t, k - 1);
      LoadStep(m, base, low, list, k - 1);
      var before := RunTo(m, SimpleOps(true, base, low, true, list), k - 1);
      OtherRegister(before, list[k - 1], list[t], Load(before, Wrap(Reg(before, base) + (low + 4 * (k - 1)))));
    }
  }

  lemma BaseOverwritten(i: Multiple, t: nat)
    requires i.increment && Defined(i) && i.load && t < |i.list| && i.list[t] == i.base
    ensures var m := BaseWitness(i, t);
            var r := RunTo(m, SimpleOps(true, i.base, FirstOffset(i), true, i.list), t + 1);
            Reg(r, i.base) == 3000 && r.mem == m.mem && |r.regs| == 16
  {
    var m, low := BaseWitness(i, t), FirstOffset(i);
    ListFits(i.list);
    assert Reg(m, i.base) == 1000 && Load(m, Wrap(1000 + low + 4 * t)) == 3000;
    assert KeepsBase(true, i.base, i.list, t);
    hide RunTo, SimpleOps, Transfer, Load, Wrap, BaseWitness;
    SimpleTransfers(m, true, i.base, low, i.list, t + 1);
    LoadedRegister(m, 1000 + low, i.list, t + 1, t);
    TransferFrames(m, true, 1000 + low, i.list, t + 1);
  }

  /** The load after that of the base reads through the new base. */
  lemma ExpandedThroughBase(i: Multiple, t: nat)
    requires i.increment && Defined(i) && i.load && t + 1 < |i.list| && i.list[t] == i.base
    ensures Reg(Run(BaseWitness(i, t), Expanded(i)), i.list[t + 1]) == 0
  {
    var m, low := BaseWitness(i, t), FirstOffset(i);
    var ops := SimpleOps(true, i.base, low, true, i.list);
    var before := RunTo(m, ops, t + 1);
    ListFits(i.list);
    BaseOverwritten(i, t);
    assert Load(before, Wrap(3000 + (low + 4 * (t + 1)))) == 0;
    assert Expanded(i) == ops;
    ReadsThroughBase(i, t, before);
  }

  lemma ReadsThroughBase(i: Multiple, t: nat, before: Machine)
    requires IsRegisterList(i.list) && t + 1 < |i.list|
    requires before == RunTo(BaseWitness(i, t), SimpleOps(true, i.base, FirstOffset(i), true, i.list), t + 1)
    requires Reg(before, i.base) == 3000 && |before.regs| == 16
    requires Load(before, Wrap(3000 + (FirstOffset(i) + 4 * (t + 1)))) == 0
    ensures Reg(RunTo(BaseWitness(i, t), SimpleOps(true, i.base, FirstOffset(i), true, i.list), |i.list|), i.list[t + 1]) == 0
  {
    hide RunTo, SimpleOps, Load, Wrap, Reg, SetReg, BaseWitness, FirstOffset;
    var m, low := BaseWitness(i, t), FirstOffset(i);
    LoadStep(m, i.base, low, i.list, t + 1);
    OtherRegister(before, i.list[t + 1], i.list[t + 1], 0);
    LaterLoads(m, i.base, low, i.list, t + 1, |i.list|);
  }

  lemma ArchitecturalThroughBase(i: Multiple, t: nat)
    requires i.increment && Defined(i) && i.load && t + 1 < |i.list| && i.list[t] == i.base
    ensures Reg(Architectural(BaseWitness(i, t), i), i.list[t + 1]) == 1
  {
    ListFits(i.list);
    LoadedRegister(BaseWitness(i, t), 1000 + FirstOffset(i), i.list, |i.list|, t + 1);
  }

  /** The expansion of an increment form agrees with the architecture on every machine
      if and only if it is not a load with its base before the last register of the list. */
  lemma IncrementAgreesIffBaseLast(i: Multiple)
    requires i.increment && Defined(i)
    ensures (forall m | IsArm(m) :: Run(m, Expanded(i)) == Architectural(m, i)) <==> BaseLast(i)
  {
    if BaseLast(i) {
      forall m | IsArm(m)
        ensures Run(m, Expanded(i)) == Architectural(m, i)
      {
        IncrementAgrees(m, i);
      }
    } else {
      var t: nat :| t < |i.list| - 1 && i.list[t] == i.base;
      assert IsArm(BaseWitness(i, t));
      ExpandedThroughBase(i, t);
      ArchitecturalThroughBase(i, t);
    }
  }

  /** `ldm r3, {r2, r3}` is expanded right, `ldm r0, {r0, r1}` is not. */
  lemma LoadsWithTheirBase()
    ensures forall m | IsArm(m) ::
              Run(m, Expanded(Multiple(true, 3, [2, 3], true, true, false)))
              == Architectural(m, Multiple(true, 3, [2, 3], true, true, false))
    ensures var m := Machine(seq(16, r => if r == 0 then 1000 else 0), map[1000 := 2000, 1004 := 7]);
            var i := Multiple(true, 0, [0, 1], true, true, false);
            IsArm(m) && Reg(Architectural(m, i), 1) == 7 && Reg(Run(m, Expanded(i)), 1) == 0
  {
    IncrementAgreesIffBaseLast(Multiple(true, 3, [2, 3], true, true, false));
    var m := Machine(seq(16, r => if r == 0 then 1000 else 0), map[1000 := 2000, 1004 := 7]);
    var i := Multiple(true, 0, [0, 1], true, true, false);
    LoadedRegister(m, 1000, i.list, 2, 1);
    SimpleTransfers(m, true, 0, 0, i.list, 1);
    LoadedRegister(m, 1000, i.list, 1, 0);
    TransferFrames(m, true, 1000, i.list, 1);
    assert Expanded(i)[1] == Ldr(1, 0, 4);
    assert Expanded(i) == SimpleOps(true, 0, 0, true, i.list);
  }

  // ---- A push of the stack pointer

  /** The stack pointer at 1000 and nothing else. */
  function StackWitness(): Machine {
    Machine(seq(16, r => if r == SP then 1000 else 0), map[])
  }

  lemma PushedStackPointer(list: seq<nat>, t: nat)
    requires IsRegisterList(list) && t < |list| && list[t] == SP
    ensures Load(Run(StackWitness(), ExpandedPush(SP, list)), 1000 - 4 * |list| + 4 * t) == 1000 - 4 * |list|
  {
    var m := StackWitness();
    ListFits(list);
    var first, ops := AddTo(SP, SP, -4 * |list|), SimpleOps(false, SP, 0, true, list);
    assert ExpandedPush(SP, list) == [first] + ops;
    RunAfterFirst(m, first, ops, |list|);
    SimpleTransfers(Moved(m, list), false, SP, 0, list, |list|);
    StoredWord(Moved(m, list), 1000 - 4 * |list|, list, |list|, t);
  }

  /** An expanded push agrees with the architecture on every machine if and only if it does not store
      the stack pointer, which it has already moved. */
  lemma PushAgreesIffNoStackPointer(list: seq<nat>)
    requires IsRegisterList(list)
    ensures (forall m | IsArm(m) ::
               Run(m, ExpandedPush(SP, list)) == Architectural(m, Multiple(false, SP, list, false, false, true)))
            <==> SP !in list
  {
    if SP !in list {
      forall m | IsArm(m)
        ensures Run(m, ExpandedPush(SP, list)) == Architectural(m, Multiple(false, SP, list, false, false, true))
      {
        PushAgrees(m, list);
      }
    } else {
      var t: nat :| t < |list| && list[t] == SP;
      ListFits(list);
      assert IsArm(StackWitness());
      PushedStackPointer(list, t);
      StoredWord(StackWitness(), 1000 - 4 * |list|, list, |list|, t);
    }
  }
}

/** `kernel`: the expansion as the extractor writes it into its instruction list. */
module BlockTransfer {
  import opened BlockTransferSpec

  class Expander {
    var instructions: seq<Op>

    constructor ()
      ensures instructions == []
    {
      instructions := [];
    }

    /** Expands a `push`; returns the number of instructions added. */
    method ExpandPush(base: nat, list: seq<nat>) returns (nbadded: nat)
      modifies this
      ensures instructions == old(instructions) + ExpandedPush(base, list)
      ensures nbadded == |ExpandedPush(base, list)|
    {
      ghost var before := instructions;
      var v := 4 * |list|;
      instructions := instructions + [AddTo(base, base, -v)];
      nbadded := 1;
      v := -4;
      for k := 0 to |list|
        invariant v == 4 * k - 4 && nbadded == k + 1
        invariant instructions == before + ExpandedPush(base, list)[..k + 1]
      {
        v := v + 4;
        instructions := instructions + [Str(list[k], base, v)];
        nbadded := nbadded + 1;
      }
    }

    /** Expands a multiple load or store. */
    method ExpandMultiple(i: Multiple) returns (nbadded: nat)
      modifies this
      ensures instructions == old(instructions) + Expanded(i) && nbadded == |Expanded(i)|
    {
      ghost var before, ops := instructions, SimpleOps(i.load, i.base, FirstOffset(i), i.increment, i.list);
      var v := 0;
      nbadded := 0;
      for k := 0 to |i.list|
        invariant v == 4 * k && nbadded == k && instructions == before + ops[..k]
      {
        if !i.after {
          v := v + 4;
        }
        instructions := instructions + [Simple(i.load, i.list[k], i.base, if i.increment then v else -v)];
        if i.after {
          v := v + 4;
        }
        nbadded := nbadded + 1;
      }
      assert ops[..|i.list|] == ops;
      if i.writeBack && v != 0 {
        instructions := instructions + [AddTo(i.base, i.base, if i.increment then v else -v)];
        nbadded := nbadded + 1;
      }
    }
  }
}
