/** Sequences without repetition and the sets they list. */
module Sequences {
  ghost predicate NoDuplicates<T>(s: seq<T>) {
    forall i, j | 0 <= i < j < |s| :: s[i] != s[j]
  }

  ghost function Elements<T>(s: seq<T>): set<T> {
    set v | v in s
  }

  lemma ElementsAppend<T>(s: seq<T>, x: T)
    ensures Elements(s + [x]) == Elements(s) + {x}
  {
    assert forall v :: v in s + [x] <==> v in s || v == x;
  }

  lemma EmptyElements<T>(s: seq<T>)
    ensures Elements(s) == {} ==> s == []
  {
    if |s| > 0 {
      assert s[0] in Elements(s);
    }
  }

  /** A repetition-free sequence over a finite set is no longer than the set. */
  lemma {:induction false} DistinctFits<T>(s: seq<T>, u: set<T>)
    requires NoDuplicates(s) && forall v | v in s :: v in u
    ensures |s| <= |u|
    ensures |s| == |u| ==> forall v | v in u :: v in s
  {
    if |s| > 0 {
      var last := s[|s| - 1];
      DistinctFits(s[..|s| - 1], u - {last});
      assert forall v | v in u :: v == last || v in u - {last};
    }
  }

  /** A set listed without repetition has as many elements as the list. */
  lemma {:induction false} ListedSize<T>(s: seq<T>)
    requires NoDuplicates(s)
    ensures |Elements(s)| == |s|
  {
    if |s| == 0 {
      assert Elements(s) == {};
    } else {
      var r := s[..|s| - 1];
      ListedSize(r);
      assert r + [s[|s| - 1]] == s;
      ElementsAppend(r, s[|s| - 1]);
    }
  }

  /** Only a repetition-free list is as long as its set is large. */
  lemma {:induction false} SizeShowsDistinct<T>(s: seq<T>)
    ensures |Elements(s)| <= |s|
    ensures |Elements(s)| == |s| ==> NoDuplicates(s)
  {
    if |s| == 0 {
      assert Elements(s) == {};
    } else {
      var r, x := s[..|s| - 1], s[|s| - 1];
      SizeShowsDistinct(r);
      assert r + [x] == s;
      ElementsAppend(r, x);
      if x in r {
        assert Elements(r) + {x} == Elements(r);
      }
    }
  }
}
