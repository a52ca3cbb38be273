/** The table-driven computation over the global message array. */
module Crc {
  import opened CrcSpec

  class CrcComputer {
    var init: bool
    const icrctb: array<bv16>
    const rchr: array<bv8>
    /** The message, from index 1. */
    const lin: array<bv8>

    ghost predicate Valid()
      reads this, icrctb, rchr
    {
      && icrctb.Length == 256 && rchr.Length == 256 && lin.Length <= 0xFFFF
      && lin != rchr
      && (init ==> Filled(256))
    }

    /** The first entries of the two tables are in place. */
    ghost predicate Filled(n: int)
      requires icrctb.Length == 256 && rchr.Length == 256
      reads icrctb, rchr
    {
      forall b: bv8 | b as int < n ::
        icrctb[b as int] == BitSteps(High(b), 8) && rchr[b as int] == ReverseByte(b)
    }

    constructor (message: array<bv8>)
      requires message.Length <= 0xFFFF
      ensures Valid() && !init && lin == message
      ensures fresh(icrctb) && fresh(rchr)
    {
      init := false;
      icrctb := new bv16[256](_ => 0);
      rchr := new bv8[256](_ => 0);
      lin := message;
    }

    /** The bit loop for one byte. */
    static method Icrc1(crc: bv16, onech: bv8) returns (ans: bv16)
      ensures ans == ByteStep(crc, onech)
    {
      hide *;
      ans := Xor(crc, High(onech));
      NoTurns(ans);
      var i := 0;
      while i < 8
        invariant 0 <= i <= 8
        invariant ans == BitSteps(Xor(crc, High(onech)), i)
      {
        OneMoreTurn(Xor(crc, High(onech)), i);
        if Top(ans) {
          ans := Xor(Twice(ans), 4129);
        } else {
          ans := Twice(ans);
        }
        i := i + 1;
      }
      ByteIsEightTurns(crc, onech);
    }

    /** Fills the two tables. */
    method FillTables()
      requires Valid()
      modifies this`init, icrctb, rchr
      ensures Valid() && init
    {
      hide BitSteps, ReverseByte, High;
      init := true;
      var j: bv16 := 0;
      while j <= 255
        invariant j <= 256 && init
        invariant Filled(j as int)
        decreases 256 - j as int
      {
        StoreEntry(j);
        NextIndex(j);
        j := j + 1;
      }
      assert j as int == 256;
      assert Filled(256);
    }

    /** One turn of the loop that fills the tables. */
    method StoreEntry(j: bv16)
      requires icrctb.Length == 256 && rchr.Length == 256
      requires j <= 255 && Filled(j as int)
      modifies icrctb, rchr
      ensures Filled(j as int + 1)
    {
      hide BitSteps, ByteStep, ReverseByte, High;
      var b := j as bv8;
      ByteIndex(j, b);
      var entry := Icrc1(High(b), 0);
      EntryOf(b);
      icrctb[b as int] := entry;
      rchr[b as int] := ReverseByte(b);
      forall c: bv8 | c as int < j as int + 1
        ensures icrctb[c as int] == BitSteps(High(c), 8) && rchr[c as int] == ReverseByte(c)
      {
        if c as int == b as int {
          SameIndex(b, c);
        }
      }
    }

    /** Runs the register over `lin[1..len]`, filling the tables on the first call. */
    method Icrc(crc: bv16, len: nat, jinit: int, jrev: int) returns (tmp2: bv16)
      requires Valid() && len < lin.Length
      modifies this`init, icrctb, rchr
      ensures Valid() && init && lin[..] == old(lin[..])
      ensures tmp2 == CrcSpec.Crc(crc, lin[1..len + 1], jinit, jrev)
    {
      hide BytesStep, ByteStep, ReverseWord, ReverseByte, ReverseBytes, High, Low, BitSteps, Start;
      if !init {
        FillTables();
      }
      var cword := First(crc, jinit, jrev);
      NothingSeen(cword, jrev);
      assert lin[1..1] == [];
      var j := 1;
      while j <= len
        invariant 1 <= j <= len + 1
        invariant Valid() && init
        invariant cword == BytesStep(Start(crc, jinit, jrev), Seen(lin[1..j], jrev))
      {
        if jrev < 0 {
          cword := Advance(cword, rchr[lin[j] as int]);
        } else {
          cword := Advance(cword, lin[j]);
        }
        SeenGrows(lin[1..j], lin[j], jrev);
        assert lin[1..j + 1] == lin[1..j] + [lin[j]];
        j := j + 1;
      }
      if jrev >= 0 {
        tmp2 := cword;
      } else {
        tmp2 := Reflect(cword);
      }
    }

    /** The register before the first byte. */
    method First(crc: bv16, jinit: int, jrev: int) returns (cword: bv16)
      requires Valid() && init
      ensures cword == Start(crc, jinit, jrev)
    {
      hide High, Low, ReverseWord, ReverseByte, BitSteps;
      cword := crc;
      if jinit >= 0 {
        var start := (jinit % 256) as bv8;
        cword := Low(start) | High(start);
      } else if jrev < 0 {
        cword := Reflect(cword);
      }
    }

    /** The register after one more byte, by one look into the table. */
    method Advance(cword: bv16, b: bv8) returns (next: bv16)
      requires Valid() && init
      ensures next == ByteStep(cword, b)
    {
      hide Hi, Lo, Xor, High, ByteStep, BitSteps;
      var tmp1 := b ^ Hi(cword);
      next := Xor(icrctb[tmp1 as int], High(Lo(cword)));
      TableStepAgrees(cword, b);
    }

    method Reflect(cword: bv16) returns (r: bv16)
      requires Valid() && init
      ensures r == ReverseWord(cword)
    {
      hide Hi, Lo, Low, High, ReverseByte, BitSteps;
      r := Low(rchr[Hi(cword) as int]) | High(rchr[Lo(cword) as int]);
    }
  }

  /** The benchmark's own sequence: the check bytes of a message are put after it and the whole checks to zero. */
  method CheckItself(computer: CrcComputer, n: nat) returns (i1: bv16, i2: bv16)
    requires computer.Valid() && n + 2 < computer.lin.Length
    modifies computer, computer.icrctb, computer.rchr, computer.lin
    ensures i1 == CrcSpec.Crc(0, old(computer.lin[1..n + 1]), 0, 1)
    ensures i2 == 0
  {
    hide CrcSpec.Crc, BitSteps, ReverseByte, Hi, Lo;
    var lin := computer.lin;
    ghost var m := lin[1..n + 1];
    lin[n + 1] := 0;
    assert lin[1..n + 1] == m;
    i1 := computer.Icrc(0, n, 0, 1);
    lin[n + 1] := Hi(i1);
    lin[n + 2] := Lo(i1);
    assert lin[1..n + 3] == m + CheckBytes(i1, 1);
    i2 := computer.Icrc(i1, n + 2, 0, 1);
    CheckedMessageIsZero(i1, m, 0, 1);
    SameStart(0, i1, m);
  }

  lemma SameStart(crc: bv16, other: bv16, m: seq<bv8>)
    ensures CrcSpec.Crc(crc, m, 0, 1) == CrcSpec.Crc(other, m, 0, 1)
  {
    hide BytesStep;
  }

  // ---- Indices and table entries

  lemma ByteIndex(j: bv16, b: bv8)
    requires j <= 255 && b == j as bv8
    ensures b as int == j as int && b as bv16 == j
  {
  }

  lemma NextIndex(j: bv16)
    requires j <= 255
    ensures (j + 1) as int == j as int + 1
  {
  }

  lemma SameIndex(b: bv8, c: bv8)
    requires b as int == c as int
    ensures b == c
  {
    assert (b as int) as bv8 == b;
    assert (c as int) as bv8 == c;
  }

  lemma OneMoreTurn(c: bv16, i: nat)
    ensures BitSteps(c, i + 1) == if Top(BitSteps(c, i)) then Xor(Twice(BitSteps(c, i)), 4129) else Twice(BitSteps(c, i))
  {
  }

  lemma NoTurns(c: bv16)
    ensures BitSteps(c, 0) == c
  {
  }

  lemma NothingSeen(c: bv16, jrev: int)
    ensures BytesStep(c, Seen([], jrev)) == c
  {
  }

  lemma ByteIsEightTurns(c: bv16, b: bv8)
    ensures ByteStep(c, b) == BitSteps(Xor(c, High(b)), 8)
  {
  }

  lemma EntryOf(b: bv8)
    ensures ByteStep(High(b), 0) == BitSteps(High(b), 8)
  {
    assert High(0) == 0;
    XorZero(High(b), 0);
  }

  lemma SeenGrows(m: seq<bv8>, b: bv8, jrev: int)
    ensures Seen(m + [b], jrev) == Seen(m, jrev) + [if jrev < 0 then ReverseByte(b) else b]
    ensures forall c :: BytesStep(c, Seen(m + [b], jrev)) == ByteStep(BytesStep(c, Seen(m, jrev)), if jrev < 0 then ReverseByte(b) else b)
  {
    var n, s, x := m + [b], Seen(m, jrev), if jrev < 0 then ReverseByte(b) else b;
    assert n[..|n| - 1] == m;
    assert (s + [x])[..|s + [x]| - 1] == s;
  }
}
