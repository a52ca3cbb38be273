/** Least-recently-used replacement on histories of accessed line numbers. */
module LruSpec {
  import opened Sequences

  /** A line number maps to the set `l % sets`. */
  function Without(s: seq<int>, l: int): seq<int> {
    if s == [] then [] else (if s[0] == l then [] else [s[0]]) + Without(s[1..], l)
  }

  /** The lines of set `i` accessed so far, the most recent first. */
  function Stack(h: seq<int>, sets: nat, i: nat): seq<int>
    requires sets > 0
  {
    if h == [] then []
    else
      var before, l := Stack(h[..|h| - 1], sets, i), h[|h| - 1];
      if l % sets == i then [l] + Without(before, l) else before
  }

  /** The position in the history of the last access to `l`. */
  function LastAccess(h: seq<int>, l: int): (t: nat)
    requires l in h
    ensures t < |h| && h[t] == l && forall k | t < k < |h| :: h[k] != l
  {
    if h[|h| - 1] == l then |h| - 1 else LastAccess(h[..|h| - 1], l)
  }

  /** The other lines of the set of `l` that were accessed since the last access to `l`. */
  ghost function AccessedSince(h: seq<int>, sets: nat, l: int): set<int>
    requires sets > 0 && l in h
  {
    set x | x in h[LastAccess(h, l) + 1..] && x % sets == l % sets
  }

  /** Line `l` is among the `ways` most recently used lines of its set. */
  ghost predicate Resident(h: seq<int>, sets: nat, ways: nat, l: int)
    requires sets > 0
  {
    l in h && |AccessedSince(h, sets, l)| < ways
  }

  lemma {:induction false} WithoutIs(s: seq<int>, l: int)
    ensures forall x :: x in Without(s, l) <==> x in s && x != l
    ensures NoDuplicates(s) ==> NoDuplicates(Without(s, l))
    ensures l !in s ==> Without(s, l) == s
  {
    if s != [] {
      WithoutIs(s[1..], l);
      if NoDuplicates(s) {
        assert forall i, j | 0 <= i < j < |s[1..]| :: s[1..][i] == s[i + 1] && s[1..][j] == s[j + 1];
        assert s[0] !in s[1..];
      }
    }
  }

  lemma {:induction false} WithoutSplit(s: seq<int>, k: nat)
    requires k < |s| && NoDuplicates(s)
    ensures Without(s, s[k]) == s[..k] + s[k + 1..]
  {
    if k == 0 {
      WithoutIs(s[1..], s[0]);
    } else {
      WithoutSplit(s[1..], k - 1);
    }
  }

  lemma {:induction false} StackIs(h: seq<int>, sets: nat, i: nat)
    requires sets > 0
    ensures NoDuplicates(Stack(h, sets, i))
    ensures forall x :: x in Stack(h, sets, i) <==> x in h && x % sets == i
  {
    if h != [] {
      var before := h[..|h| - 1];
      StackIs(before, sets, i);
      WithoutIs(Stack(before, sets, i), h[|h| - 1]);
      assert h == before + [h[|h| - 1]];
    }
  }

  lemma LastAccessKept(h: seq<int>, x: int, l: int)
    requires x in h && x != l
    ensures LastAccess(h + [l], x) == LastAccess(h, x)
  {
    assert (h + [l])[..|h + [l]| - 1] == h;
  }

  /** One access of `l` in front of the recency order: what stands before `x` grows by `l`. */
  lemma PushFront(before: seq<int>, l: int, m: nat) returns (k: nat)
    requires NoDuplicates(before) && m < |before| && before[m] != l
    ensures var after := [l] + Without(before, l);
            k < |after| && after[k] == before[m] && Elements(after[..k]) == Elements(before[..m]) + {l}
  {
    var after := [l] + Without(before, l);
    if l in before {
      var p :| 0 <= p < |before| && before[p] == l;
      WithoutSplit(before, p);
      if p < m {
        k := m;
        assert after[..k] == [l] + (before[..p] + before[p + 1..m]);
        assert before[..m] == before[..p] + [l] + before[p + 1..m];
      } else {
        k := m + 1;
        assert after[..k] == [l] + before[..m];
      }
    } else {
      WithoutIs(before, l);
      k := m + 1;
      assert after[..k] == [l] + before[..m];
    }
  }

  lemma SinceGrows(h: seq<int>, sets: nat, x: int, l: int)
    requires sets > 0 && x in h && x != l
    ensures AccessedSince(h + [l], sets, x) ==
            AccessedSince(h, sets, x) + if l % sets == x % sets then {l} else {}
  {
    LastAccessKept(h, x, l);
    var t := LastAccess(h, x);
    assert (h + [l])[t + 1..] == h[t + 1..] + [l];
  }

  /** What stands before a line in the recency order is what was accessed since its last access. */
  lemma {:induction false} StackOrder(h: seq<int>, sets: nat, i: nat, k: nat)
    requires sets > 0 && k < |Stack(h, sets, i)|
    ensures Stack(h, sets, i)[k] in h
    ensures AccessedSince(h, sets, Stack(h, sets, i)[k]) == Elements(Stack(h, sets, i)[..k])
  {
    var before, l := h[..|h| - 1], h[|h| - 1];
    var st, x := Stack(h, sets, i), Stack(h, sets, i)[k];
    var bst := Stack(before, sets, i);
    assert h == before + [l];
    StackIs(h, sets, i);
    StackIs(before, sets, i);
    assert x in st && x % sets == i && x in h;
    if x == l {
      assert st[0] == l;
      assert h[LastAccess(h, x) + 1..] == [];
    } else {
      assert x in before && x in bst;
      var m :| 0 <= m < |bst| && bst[m] == x;
      StackOrder(before, sets, i, m);
      SinceGrows(before, sets, x, l);
      if l % sets == i {
        var k' := PushFront(bst, l, m);
        assert k' == k;
      }
    }
  }

  /** Being among the first `ways` lines of the recency order is residency. */
  lemma ResidentIsTop(h: seq<int>, sets: nat, ways: nat, l: int)
    requires sets > 0
    ensures Resident(h, sets, ways, l) <==>
            exists k | 0 <= k < |Stack(h, sets, l % sets)| :: k < ways && Stack(h, sets, l % sets)[k] == l
  {
    var st := Stack(h, sets, l % sets);
    StackIs(h, sets, l % sets);
    if l in h {
      var k :| 0 <= k < |st| && st[k] == l;
      StackOrder(h, sets, l % sets, k);
      ListedSize(st[..k]);
    }
  }

  /** More ways keep every resident line: an access that hits with `ways` hits with any more. */
  lemma MoreWaysHit(h: seq<int>, sets: nat, ways: nat, more: nat, l: int)
    requires sets > 0 && ways <= more && Resident(h, sets, ways, l)
    ensures Resident(h, sets, more, l)
  {
  }

  /** Lines further down the recency order were last accessed earlier. */
  lemma {:induction false} StackTimes(h: seq<int>, sets: nat, i: nat, j: nat, k: nat)
    requires sets > 0 && j < k < |Stack(h, sets, i)|
    ensures Stack(h, sets, i)[j] in h && Stack(h, sets, i)[k] in h
    ensures LastAccess(h, Stack(h, sets, i)[k]) < LastAccess(h, Stack(h, sets, i)[j])
  {
    var st := Stack(h, sets, i);
    StackOrder(h, sets, i, j);
    StackOrder(h, sets, i, k);
    assert st[j] in st[..k] by {
      assert st[..k][j] == st[j];
    }
    assert st[j] in AccessedSince(h, sets, st[k]);
  }
}

/** `ICache`: the timestamped set-associative array, against the recency order of its history. */
module InstructionCache {
  import opened Sequences
  import opened LruSpec

  datatype ICacheLine = ICacheLine(physaddress: int, valid: bool, lastUse: nat)

  // ---- One set of the cache

  /** The valid ways of the set `row` hold the entries `es`, each in one way. */
  ghost predicate RowHolds(row: seq<ICacheLine>, es: seq<ICacheLine>) {
    && NoDuplicates(es)
    && (forall e :: e in es <==> e.valid && e in row)
    && (forall i, j | 0 <= i < j < |row| && row[i].valid && row[j].valid :: row[i] != row[j])
  }

  function MoveToFront<T>(s: seq<T>, k: nat, x: T): seq<T>
    requires k < |s|
  {
    [x] + (s[..k] + s[k + 1..])
  }

  lemma MoveToFrontIs<T>(s: seq<T>, k: nat, x: T)
    requires k < |s| && NoDuplicates(s) && x !in s
    ensures NoDuplicates(MoveToFront(s, k, x))
    ensures forall y :: y in MoveToFront(s, k, x) <==> y == x || (y in s && y != s[k])
  {
    var r := s[..k] + s[k + 1..];
    forall y
      ensures y in r <==> y in s && y != s[k]
    {
      if y in s && y != s[k] {
        var m :| 0 <= m < |s| && s[m] == y;
        assert r[if m < k then m else m - 1] == y;
      }
    }
  }

  lemma RowAfter(row: seq<ICacheLine>, j: nat, e: ICacheLine)
    requires j < |row|
    requires forall i, k | 0 <= i < k < |row| && row[i].valid && row[k].valid :: row[i] != row[k]
    ensures forall y: ICacheLine | y.valid :: y in row[j := e] <==> y == e || (y in row && y != row[j])
  {
    forall y: ICacheLine | y.valid
      ensures y in row[j := e] <==> y == e || (y in row && y != row[j])
    {
      if y in row && y != row[j] {
        var i :| 0 <= i < |row| && row[i] == y;
        assert row[j := e][i] == y;
      }
      assert row[j := e][j] == e;
    }
  }

  /** Overwriting the way of entry `k` puts the new entry in front in its place. */
  lemma Overwrite(row: seq<ICacheLine>, es: seq<ICacheLine>, j: nat, k: nat, e: ICacheLine)
    requires RowHolds(row, es) && j < |row| && k < |es| && row[j] == es[k] && e.valid && e !in es
    ensures RowHolds(row[j := e], MoveToFront(es, k, e))
  {
    MoveToFrontIs(es, k, e);
    RowAfter(row, j, e);
    assert forall y | y in row[j := e] :: y == e || y in row;
    assert row[j] in es;
  }

  /** Writing an unused way puts the new entry in front. */
  lemma Fill(row: seq<ICacheLine>, es: seq<ICacheLine>, j: nat, e: ICacheLine)
    requires RowHolds(row, es) && j < |row| && !row[j].valid && e.valid && e !in es
    ensures RowHolds(row[j := e], [e] + es)
  {
    RowAfter(row, j, e);
    assert forall y | y in row[j := e] :: y == e || y in row;
  }

  /** A set without unused ways holds an entry for every way, otherwise it holds fewer. */
  lemma EntryCount(row: seq<ICacheLine>, es: seq<ICacheLine>)
    requires RowHolds(row, es)
    ensures (forall j | 0 <= j < |row| :: row[j].valid) <==> |es| == |row|
    ensures |es| <= |row|
  {
    ListedSize(es);
    if j :| 0 <= j < |row| && !row[j].valid {
      var others := row[..j] + row[j + 1..];
      forall e | e in es
        ensures e in others
      {
        var i :| 0 <= i < |row| && row[i] == e;
        assert others[if i < j then i else i - 1] == e;
      }
      SizeShowsDistinct(others);
      Subset(Elements(es), Elements(others));
    } else {
      DistinctFits(row, Elements(es));
      SizeShowsDistinct(row);
      Subset(Elements(es), Elements(row));
    }
  }

  lemma Subset<T>(a: set<T>, b: set<T>)
    requires a <= b
    ensures |a| <= |b|
  {
    assert b == a + (b - a);
  }

  // ---- What a set of `ways` ways should hold

  function Entry(l: int, lineSize: nat, t: nat): ICacheLine {
    ICacheLine(l * lineSize, true, t)
  }

  /** The `ways` most recently used lines of set `i`, the most recent first, with their times. */
  ghost function Top(h: seq<int>, sets: nat, i: nat, ways: nat, lineSize: nat): seq<ICacheLine>
    requires sets > 0
  {
    var st := Stack(h, sets, i);
    seq(if ways < |st| then ways else |st|, k requires 0 <= k < |st| =>
      if st[k] in h then Entry(st[k], lineSize, LastAccess(h, st[k])) else Entry(0, 0, 0))
  }

  lemma TopIs(h: seq<int>, sets: nat, i: nat, ways: nat, lineSize: nat, k: nat)
    requires sets > 0 && k < |Top(h, sets, i, ways, lineSize)|
    ensures k < |Stack(h, sets, i)| && Stack(h, sets, i)[k] in h
    ensures Top(h, sets, i, ways, lineSize)[k] == Entry(Stack(h, sets, i)[k], lineSize, LastAccess(h, Stack(h, sets, i)[k]))
  {
    StackOrder(h, sets, i, k);
  }

  lemma StackAfter(h: seq<int>, sets: nat, i: nat, l: int)
    requires sets > 0
    ensures Stack(h + [l], sets, i) ==
            if l % sets == i then [l] + Without(Stack(h, sets, i), l) else Stack(h, sets, i)
    ensures LastAccess(h + [l], l) == |h|
    ensures forall x | x in h && x != l :: LastAccess(h + [l], x) == LastAccess(h, x)
  {
    assert (h + [l])[..|h + [l]| - 1] == h;
    forall x | x in h && x != l
      ensures LastAccess(h + [l], x) == LastAccess(h, x)
    {
      LastAccessKept(h, x, l);
    }
  }

  /** Other sets do not notice an access. */
  lemma TopElsewhere(h: seq<int>, sets: nat, i: nat, ways: nat, lineSize: nat, l: int)
    requires sets > 0 && l % sets != i
    ensures Top(h + [l], sets, i, ways, lineSize) == Top(h, sets, i, ways, lineSize)
  {
    StackAfter(h, sets, i, l);
    StackIs(h, sets, i);
    var st := Stack(h, sets, i);
    assert forall k | 0 <= k < |st| :: st[k] in st && st[k] != l;
  }

  lemma MoveToFrontAt<T>(s: seq<T>, k: nat, x: T, m: nat)
    requires k < |s| && m < |s|
    ensures |MoveToFront(s, k, x)| == |s|
    ensures MoveToFront(s, k, x)[m] == if m == 0 then x else if m <= k then s[m - 1] else s[m]
  {
  }

  lemma MoveLast<T>(s: seq<T>, x: T)
    requires |s| > 0
    ensures MoveToFront(s, |s| - 1, x) == [x] + s[..|s| - 1]
  {
  }

  /** The entry of another line of the set does not change with the access. */
  lemma TopShift(h: seq<int>, sets: nat, ways: nat, lineSize: nat, l: int, m: nat, o: nat)
    requires sets > 0
    requires m < |Top(h + [l], sets, l % sets, ways, lineSize)| && o < |Top(h, sets, l % sets, ways, lineSize)|
    requires Stack(h + [l], sets, l % sets)[m] == Stack(h, sets, l % sets)[o] != l
    ensures Top(h + [l], sets, l % sets, ways, lineSize)[m] == Top(h, sets, l % sets, ways, lineSize)[o]
  {
    TopIs(h, sets, l % sets, ways, lineSize, o);
    TopIs(h + [l], sets, l % sets, ways, lineSize, m);
    LastAccessKept(h, Stack(h, sets, l % sets)[o], l);
  }

  /** A hit at position `k`. */
  lemma TopHit(h: seq<int>, sets: nat, ways: nat, lineSize: nat, l: int, k: nat)
    requires sets > 0 && k < |Top(h, sets, l % sets, ways, lineSize)| && Stack(h, sets, l % sets)[k] == l
    ensures Top(h + [l], sets, l % sets, ways, lineSize) ==
            MoveToFront(Top(h, sets, l % sets, ways, lineSize), k, Entry(l, lineSize, |h|))
  {
    var i := l % sets;
    var st, es, es' := Stack(h, sets, i), Top(h, sets, i, ways, lineSize), Top(h + [l], sets, i, ways, lineSize);
    StackAfter(h, sets, i, l);
    StackIs(h, sets, i);
    WithoutSplit(st, k);
    assert Stack(h + [l], sets, i) == MoveToFront(st, k, l);
    MoveToFrontAt(st, k, l, 0);
    MoveToFrontAt(es, k, Entry(l, lineSize, |h|), 0);
    forall m | 0 <= m < |es'|
      ensures es'[m] == MoveToFront(es, k, Entry(l, lineSize, |h|))[m]
    {
      MoveToFrontAt(es, k, Entry(l, lineSize, |h|), m);
      if m == 0 {
        TopIs(h + [l], sets, i, ways, lineSize, 0);
      } else {
        MoveToFrontAt(st, k, l, m);
        TopShift(h, sets, ways, lineSize, l, m, if m <= k then m - 1 else m);
      }
    }
  }

  lemma TopSize(h: seq<int>, sets: nat, i: nat, ways: nat, lineSize: nat)
    requires sets > 0
    ensures var n := |Stack(h, sets, i)|; |Top(h, sets, i, ways, lineSize)| == if ways < n then ways else n
  {
  }

  /** After a miss the set holds one line more, unless it was full. */
  lemma MissSize(h: seq<int>, sets: nat, ways: nat, lineSize: nat, l: int)
    requires sets > 0 && ways > 0 && !Resident(h, sets, ways, l)
    ensures var es := Top(h, sets, l % sets, ways, lineSize);
            |Top(h + [l], sets, l % sets, ways, lineSize)| == if |es| < ways then |es| + 1 else ways
  {
    StackAfter(h, sets, l % sets, l);
    MissRest(h, sets, ways, l);
  }

  /** After a miss every line that stays is one place further down. */
  lemma MissEntry(h: seq<int>, sets: nat, ways: nat, lineSize: nat, l: int, m: nat)
    requires sets > 0 && ways > 0 && !Resident(h, sets, ways, l)
    requires m + 1 < |Top(h + [l], sets, l % sets, ways, lineSize)| <= ways
    ensures m < |Top(h, sets, l % sets, ways, lineSize)|
    ensures Top(h + [l], sets, l % sets, ways, lineSize)[m + 1] == Top(h, sets, l % sets, ways, lineSize)[m]
  {
    hide Top, Stack, LastAccess, Resident;
    TopSize(h, sets, l % sets, ways, lineSize);
    TopSize(h + [l], sets, l % sets, ways, lineSize);
    StackAfter(h, sets, l % sets, l);
    MissRest(h, sets, ways, l);
    TopShift(h, sets, ways, lineSize, l, m + 1, m);
  }

  /** A miss: the new line comes first, and the last one falls out of a full set. */
  lemma TopMiss(h: seq<int>, sets: nat, ways: nat, lineSize: nat, l: int)
    requires sets > 0 && ways > 0 && !Resident(h, sets, ways, l)
    ensures var es := Top(h, sets, l % sets, ways, lineSize);
            Top(h + [l], sets, l % sets, ways, lineSize) ==
            [Entry(l, lineSize, |h|)] + if |es| < ways then es else es[..ways - 1]
  {
    hide Top, Stack, LastAccess, Resident;
    var es, es' := Top(h, sets, l % sets, ways, lineSize), Top(h + [l], sets, l % sets, ways, lineSize);
    MissSize(h, sets, ways, lineSize, l);
    StackAfter(h, sets, l % sets, l);
    TopIs(h + [l], sets, l % sets, ways, lineSize, 0);
    forall m | 0 <= m < |es'| - 1
      ensures m < |es| && es'[m + 1] == es[m]
    {
      MissEntry(h, sets, ways, lineSize, l, m);
    }
    TopSize(h, sets, l % sets, ways, lineSize);
  }

  /** A line that is not resident is not among the first `ways` of the order. */
  lemma MissRest(h: seq<int>, sets: nat, ways: nat, l: int)
    requires sets > 0 && ways > 0 && !Resident(h, sets, ways, l)
    ensures var st := Stack(h, sets, l % sets);
            && (|st| < ways ==> Without(st, l) == st)
            && (|st| >= ways ==> |Without(st, l)| >= ways - 1)
            && forall k | 0 <= k < ways - 1 && k < |Without(st, l)| :: k < |st| && Without(st, l)[k] == st[k] != l
  {
    var st := Stack(h, sets, l % sets);
    StackIs(h, sets, l % sets);
    ResidentIsTop(h, sets, ways, l);
    if p :| 0 <= p < |st| && st[p] == l {
      WithoutSplit(st, p);
    } else {
      WithoutIs(st, l);
    }
  }

  // ---- The three outcomes of an access, on one set

  ghost predicate SetHolds(row: seq<ICacheLine>, h: seq<int>, sets: nat, i: nat, lineSize: nat)
    requires sets > 0
  {
    RowHolds(row, Top(h, sets, i, |row|, lineSize))
  }

  lemma NewEntryIsNew(h: seq<int>, sets: nat, i: nat, ways: nat, lineSize: nat, l: int)
    requires sets > 0
    ensures Entry(l, lineSize, |h|) !in Top(h, sets, i, ways, lineSize)
  {
    var es := Top(h, sets, i, ways, lineSize);
    forall k | 0 <= k < |es|
      ensures es[k] != Entry(l, lineSize, |h|)
    {
      TopIs(h, sets, i, ways, lineSize, k);
    }
  }

  lemma SameLine(a: int, b: int, lineSize: nat)
    requires lineSize > 0 && a * lineSize == b * lineSize
    ensures a == b
  {
    assert (a - b) * lineSize == 0;
  }

  /** A valid way holding the line's address: the line is resident, and touching it keeps the set. */
  lemma HitOutcome(row: seq<ICacheLine>, h: seq<int>, sets: nat, lineSize: nat, l: int, j: nat)
    requires sets > 0 && lineSize > 0 && SetHolds(row, h, sets, l % sets, lineSize)
    requires j < |row| && row[j].valid && row[j].physaddress == l * lineSize
    ensures Resident(h, sets, |row|, l)
    ensures SetHolds(row[j := row[j].(lastUse := |h|)], h + [l], sets, l % sets, lineSize)
  {
    var es := Top(h, sets, l % sets, |row|, lineSize);
    assert row[j] in es;
    var k :| 0 <= k < |es| && es[k] == row[j];
    TopIs(h, sets, l % sets, |row|, lineSize, k);
    SameLine(Stack(h, sets, l % sets)[k], l, lineSize);
    ResidentIsTop(h, sets, |row|, l);
    NewEntryIsNew(h, sets, l % sets, |row|, lineSize, l);
    Overwrite(row, es, j, k, Entry(l, lineSize, |h|));
    TopHit(h, sets, |row|, lineSize, l, k);
  }

  /** No valid way holding the line's address: the line is not resident. */
  lemma MissOutcome(row: seq<ICacheLine>, h: seq<int>, sets: nat, lineSize: nat, l: int)
    requires sets > 0 && lineSize > 0 && SetHolds(row, h, sets, l % sets, lineSize)
    requires forall j | 0 <= j < |row| :: !(row[j].valid && row[j].physaddress == l * lineSize)
    ensures !Resident(h, sets, |row|, l)
  {
    var es := Top(h, sets, l % sets, |row|, lineSize);
    ResidentIsTop(h, sets, |row|, l);
    if k :| 0 <= k < |Stack(h, sets, l % sets)| && k < |row| && Stack(h, sets, l % sets)[k] == l {
      TopIs(h, sets, l % sets, |row|, lineSize, k);
      assert es[k] in es && es[k] in row;
    }
  }

  lemma FillOutcome(row: seq<ICacheLine>, h: seq<int>, sets: nat, lineSize: nat, l: int, j: nat)
    requires sets > 0 && lineSize > 0 && SetHolds(row, h, sets, l % sets, lineSize)
    requires !Resident(h, sets, |row|, l) && j < |row| && !row[j].valid
    ensures SetHolds(row[j := Entry(l, lineSize, |h|)], h + [l], sets, l % sets, lineSize)
  {
    var es := Top(h, sets, l % sets, |row|, lineSize);
    NewEntryIsNew(h, sets, l % sets, |row|, lineSize, l);
    EntryCount(row, es);
    Fill(row, es, j, Entry(l, lineSize, |h|));
    TopMiss(h, sets, |row|, lineSize, l);
  }

  /** In a full set the way with the smallest time holds the last entry of the order. */
  lemma SmallestIsLast(row: seq<ICacheLine>, h: seq<int>, sets: nat, i: nat, lineSize: nat, j: nat)
    requires sets > 0 && SetHolds(row, h, sets, i, lineSize)
    requires j < |row| && forall m | 0 <= m < |row| :: row[m].valid && row[j].lastUse <= row[m].lastUse
    ensures var es := Top(h, sets, i, |row|, lineSize); |es| == |row| && es[|row| - 1] == row[j]
  {
    var es := Top(h, sets, i, |row|, lineSize);
    EntryCount(row, es);
    assert row[j] in es;
    var k :| 0 <= k < |es| && es[k] == row[j];
    var last := |es| - 1;
    assert es[last] in es && es[last] in row;
    if k < last {
      TopIs(h, sets, i, |row|, lineSize, k);
      TopIs(h, sets, i, |row|, lineSize, last);
      StackTimes(h, sets, i, k, last);
    }
  }

  lemma EvictOutcome(row: seq<ICacheLine>, h: seq<int>, sets: nat, lineSize: nat, l: int, j: nat)
    requires sets > 0 && lineSize > 0 && SetHolds(row, h, sets, l % sets, lineSize)
    requires !Resident(h, sets, |row|, l) && j < |row|
    requires forall m | 0 <= m < |row| :: row[m].valid && row[j].lastUse <= row[m].lastUse
    ensures SetHolds(row[j := Entry(l, lineSize, |h|)], h + [l], sets, l % sets, lineSize)
  {
    var es := Top(h, sets, l % sets, |row|, lineSize);
    SmallestIsLast(row, h, sets, l % sets, lineSize, j);
    NewEntryIsNew(h, sets, l % sets, |row|, lineSize, l);
    Overwrite(row, es, j, |row| - 1, Entry(l, lineSize, |h|));
    MoveLast(es, Entry(l, lineSize, |h|));
    TopMiss(h, sets, |row|, lineSize, l);
  }

  /** Two valid ways of a set differ in tag and in time, and all times are in the past. */
  lemma TagsAndTimes(row: seq<ICacheLine>, h: seq<int>, sets: nat, i: nat, lineSize: nat, a: nat, b: nat)
    requires sets > 0 && lineSize > 0 && SetHolds(row, h, sets, i, lineSize)
    requires a < |row| && b < |row| && a != b && row[a].valid && row[b].valid
    ensures row[a].physaddress != row[b].physaddress && row[a].lastUse != row[b].lastUse
    ensures row[a].lastUse < |h|
  {
    var es := Top(h, sets, i, |row|, lineSize);
    assert row[a] in es && row[b] in es;
    var k :| 0 <= k < |es| && es[k] == row[a];
    var m :| 0 <= m < |es| && es[m] == row[b];
    TopIs(h, sets, i, |row|, lineSize, k);
    TopIs(h, sets, i, |row|, lineSize, m);
    StackIs(h, sets, i);
    if row[a].physaddress == row[b].physaddress {
      SameLine(Stack(h, sets, i)[k], Stack(h, sets, i)[m], lineSize);
    }
    if k < m {
      StackTimes(h, sets, i, k, m);
    } else {
      StackTimes(h, sets, i, m, k);
    }
  }

  /** C's division and remainder, which round toward zero. */
  function Quotient(x: int, y: nat): int
    requires y > 0
  {
    if x >= 0 then x / y else -(-x / y)
  }

  function Remainder(x: int, y: nat): int
    requires y > 0
  {
    if x >= 0 then x % y else -(-x % y)
  }

  /** Division leaves a remainder smaller than the divisor, with the sign of the dividend. */
  lemma QuotientAndRemainder(x: int, y: nat)
    requires y > 0
    ensures x == Quotient(x, y) * y + Remainder(x, y)
    ensures if x >= 0 then 0 <= Remainder(x, y) < y else Remainder(x, y) <= 0 < Remainder(x, y) + y
  {
    if x < 0 {
      var q, r := -x / y, -x % y;
      assert -x == q * y + r && 0 <= r < y;
      Opposite(q, y);
    }
  }

  lemma Opposite(q: int, y: int)
    ensures -q * y == -(q * y)
  {
  }

  /** Address `a` lies in line `q`: in `size` addresses from `q * size` on, and line 0 also takes those
      just below zero, as division rounds toward it. */
  predicate InLine(a: int, q: int, size: nat) {
    if a >= 0 then q >= 0 && q * size <= a < (q + 1) * size else q <= 0 && (q - 1) * size < a <= q * size
  }

  /** An address lies in the line of its quotient and in no other. */
  lemma LineOfAddress(a: int, size: nat, q: int)
    requires size > 0
    ensures InLine(a, q, size) <==> q == Quotient(a, size)
  {
    var p := Quotient(a, size);
    QuotientAndRemainder(a, size);
    assert (p + 1) * size == p * size + size && (p - 1) * size == p * size - size;
    QuotientSign(a, size);
    if q > p {
      MoreLines(p + 1, q, size);
      MoreLines(p, q - 1, size);
    } else if q < p {
      MoreLines(q + 1, p, size);
      MoreLines(q, p - 1, size);
    }
  }

  lemma QuotientSign(a: int, size: nat)
    requires size > 0
    ensures if a >= 0 then Quotient(a, size) >= 0 else Quotient(a, size) <= 0
  {
  }

  lemma MoreLines(p: int, q: int, size: nat)
    requires p <= q
    ensures p * size <= q * size
  {
  }

  /** Two addresses are of one line if and only if one line holds both. */
  lemma SameLineIff(a: int, b: int, size: nat)
    requires size > 0
    ensures Quotient(a, size) == Quotient(b, size) <==> exists q :: InLine(a, q, size) && InLine(b, q, size)
  {
    hide InLine, Quotient;
    LineOfAddress(a, size, Quotient(a, size));
    LineOfAddress(b, size, Quotient(b, size));
    if q :| InLine(a, q, size) && InLine(b, q, size) {
      LineOfAddress(a, size, q);
      LineOfAddress(b, size, q);
    }
  }

  /** Where the remainder can be an index, it is the mathematical one. */
  lemma SetOfLine(l: int, sets: nat)
    requires sets > 0
    ensures Remainder(l, sets) >= 0 ==> Remainder(l, sets) == l % sets
  {
    if l < 0 && -l % sets == 0 {
      var a, b, r := -l / sets, l / sets, l % sets;
      assert -l == a * sets && l == b * sets + r;
      SmallMultiple(-(a + b), sets, r);
    }
  }

  lemma SmallMultiple(k: int, n: nat, r: int)
    requires 0 <= r < n && r == k * n
    ensures r == 0
  {
    if k >= 1 {
      AtLeastOnce(k, n);
    } else {
      AtMostZero(k, n);
    }
  }

  lemma AtLeastOnce(k: int, n: nat)
    requires k >= 1
    ensures k * n >= n
  {
  }

  lemma AtMostZero(k: int, n: nat)
    requires k <= 0
    ensures k * n <= 0
  {
  }

  class ICache {
    const nbSets: nat
    const nbWays: nat
    const lineSize: nat
    var cacheLines: array2<ICacheLine>
    var lastUse: nat
    /** The line numbers accessed so far. */
    ghost var history: seq<int>

    ghost function Row(i: nat): seq<ICacheLine>
      reads this, cacheLines
      requires i < cacheLines.Length0
    {
      seq(cacheLines.Length1, j requires 0 <= j < cacheLines.Length1 && i < cacheLines.Length0 reads this, cacheLines => cacheLines[i, j])
    }

    /** Every set holds exactly its most recently used lines, with the times of their last access. */
    ghost predicate Valid()
      reads this, cacheLines
    {
      && nbSets > 0 && nbWays > 0 && lineSize > 0
      && cacheLines.Length0 == nbSets && cacheLines.Length1 == nbWays
      && lastUse == |history|
      && forall i | 0 <= i < nbSets :: SetHolds(Row(i), history, nbSets, i, lineSize)
    }

    constructor (nbs: nat, nbw: nat, lsize: nat)
      requires nbs > 0 && nbw > 0 && lsize > 0
      ensures Valid() && history == [] && fresh(cacheLines)
      ensures nbSets == nbs && nbWays == nbw && lineSize == lsize
    {
      nbSets, nbWays, lineSize := nbs, nbw, lsize;
      lastUse, history := 0, [];
      cacheLines := new ICacheLine[nbs, nbw];
      new;
      for i := 0 to nbSets
        modifies cacheLines
        invariant forall k, m | 0 <= k < i && 0 <= m < nbWays :: !cacheLines[k, m].valid
      {
        for j := 0 to nbWays
          modifies cacheLines
          invariant forall k, m | 0 <= k < i && 0 <= m < nbWays :: !cacheLines[k, m].valid
          invariant forall m | 0 <= m < j :: !cacheLines[i, m].valid
        {
          cacheLines[i, j] := cacheLines[i, j].(valid := false);
        }
      }
    }

    /** Accesses the line of an address; a hit exactly when the line is among the `nbWays`
        most recently used ones of its set. */
    method LoadLine(physaddress: int) returns (hit: bool)
      requires Valid() && Remainder(Quotient(physaddress, lineSize), nbSets) >= 0
      modifies this, cacheLines
      ensures Valid() && cacheLines == old(cacheLines)
      ensures history == old(history) + [Quotient(physaddress, lineSize)]
      ensures InLine(physaddress, history[|old(history)|], lineSize)
      ensures hit <==> Resident(old(history), nbSets, nbWays, history[|old(history)|])
    {
      var lineNb := Quotient(physaddress, lineSize);
      LineOfAddress(physaddress, lineSize, lineNb);
      var setNb := Remainder(lineNb, nbSets);
      SetOfLine(lineNb, nbSets);
      var baseAddress := lineNb * lineSize;
      ghost var row := Row(setNb);
      for j := 0 to nbWays
        invariant forall k | 0 <= k < j :: !(row[k].valid && row[k].physaddress == baseAddress)
      {
        if cacheLines[setNb, j].valid && cacheLines[setNb, j].physaddress == baseAddress {
          HitOutcome(row, history, nbSets, lineSize, lineNb, j);
          Replace(lineNb, j, cacheLines[setNb, j].(lastUse := lastUse));
          return true;
        }
      }
      MissOutcome(row, history, nbSets, lineSize, lineNb);
      for j := 0 to nbWays
        invariant forall k | 0 <= k < j :: row[k].valid
      {
        if !cacheLines[setNb, j].valid {
          FillOutcome(row, history, nbSets, lineSize, lineNb, j);
          Replace(lineNb, j, ICacheLine(baseAddress, true, lastUse));
          return false;
        }
      }
      var minUse := cacheLines[setNb, 0].lastUse;
      var jMin := 0;
      for j := 1 to nbWays
        invariant 0 <= jMin < nbWays && minUse == row[jMin].lastUse
        invariant forall k | 0 <= k < j :: minUse <= row[k].lastUse
      {
        if cacheLines[setNb, j].lastUse < minUse {
          minUse := cacheLines[setNb, j].lastUse;
          jMin := j;
        }
      }
      EvictOutcome(row, history, nbSets, lineSize, lineNb, jMin);
      assert cacheLines[setNb, jMin] == row[jMin];
      Replace(lineNb, jMin, cacheLines[setNb, jMin].(physaddress := baseAddress, lastUse := lastUse));
      return false;
    }

    /** Writes way `j` of the set of line `l` and counts the access. */
    method Replace(l: int, j: nat, e: ICacheLine)
      requires Valid() && j < nbWays
      requires SetHolds(Row(l % nbSets)[j := e], history + [l], nbSets, l % nbSets, lineSize)
      modifies this, cacheLines
      ensures Valid() && cacheLines == old(cacheLines) && history == old(history) + [l]
    {
      ghost var i := l % nbSets;
      ghost var before := seq(nbSets, k requires 0 <= k < nbSets && nbSets == cacheLines.Length0 reads this, cacheLines => Row(k));
      cacheLines[l % nbSets, j] := e;
      lastUse := lastUse + 1;
      history := history + [l];
      forall k | 0 <= k < nbSets
        ensures SetHolds(Row(k), history, nbSets, k, lineSize)
      {
        if k == i {
          assert Row(k) == before[k][j := e];
        } else {
          assert Row(k) == before[k];
          TopElsewhere(old(history), nbSets, k, nbWays, lineSize, l);
        }
      }
    }
  }

  /** Two caches over the same accesses: the one with more ways hits whenever the other does. */
  method LoadBoth(small: ICache, large: ICache, physaddress: int) returns (hitSmall: bool, hitLarge: bool)
    requires small.Valid() && large.Valid() && small != large && small.cacheLines != large.cacheLines
    requires small.history == large.history && small.nbSets == large.nbSets && small.lineSize == large.lineSize
    requires small.nbWays <= large.nbWays && Remainder(Quotient(physaddress, small.lineSize), small.nbSets) >= 0
    modifies small, small.cacheLines, large, large.cacheLines
    ensures small.Valid() && large.Valid() && small.history == large.history
    ensures small.cacheLines == old(small.cacheLines) && large.cacheLines == old(large.cacheLines)
    ensures hitSmall ==> hitLarge
  {
    hitSmall := small.LoadLine(physaddress);
    hitLarge := large.LoadLine(physaddress);
  }

  /** The second access to a line of 16 bytes hits, at another address of it. */
  method SameLineTwice() returns (first: bool, second: bool)
    ensures !first && second
  {
    var cache := new ICache(1, 2, 16);
    first := cache.LoadLine(0);
    second := cache.LoadLine(4);
    assert LastAccess([0], 0) == 0;
    assert AccessedSince([0], 1, 0) == {};
  }

  /** Lines of different sets do not push each other out, lines of one set do. */
  method TwoSets() returns (kept: bool, lost: bool)
    ensures kept && !lost
  {
    var cache := new ICache(2, 1, 16);
    var hit := cache.LoadLine(0);
    hit := cache.LoadLine(16);
    kept := cache.LoadLine(0);
    assert LastAccess([0, 1], 0) == 0;
    assert AccessedSince([0, 1], 2, 0) == {};
    hit := cache.LoadLine(32);
    lost := cache.LoadLine(0);
    assert cache.history[..4] == [0, 1, 0, 2];
    assert LastAccess([0, 1, 0, 2], 0) == 2;
    assert 2 in AccessedSince([0, 1, 0, 2], 2, 0);
  }
}
