/** Loop bounds in an annotation file: the nesting of a function's loops, and tags nested alike. */
module LoopFileSpec {
  import opened LoopSpec

  /** A loop, by its position in the list of loops, and the loops directly inside it. */
  datatype LoopTree = LoopTree(loop: nat, subloops: seq<LoopTree>)

  /** A `LOOP` tag with its bound and the tags inside it. */
  datatype LoopTag = LoopTag(maxiter: int, tags: seq<LoopTag>)

  /** The positions are those of `n` loops. */
  predicate Fits(f: seq<LoopTree>, n: nat)
    decreases f
  {
    forall i | 0 <= i < |f| :: f[i].loop < n && Fits(f[i].subloops, n)
  }

  /** The loops of the first `k` trees. */
  ghost function LoopsTo(f: seq<LoopTree>, k: nat): set<nat>
    requires k <= |f|
    decreases f, k
  {
    if k == 0 then {} else LoopsTo(f, k - 1) + {f[k - 1].loop} + LoopsTo(f[k - 1].subloops, |f[k - 1].subloops|)
  }

  ghost function LoopsOf(f: seq<LoopTree>): set<nat> {
    LoopsTo(f, |f|)
  }

  /** Every loop has a tag in its place. */
  predicate SameShape(f: seq<LoopTree>, tags: seq<LoopTag>)
    decreases f
  {
    |f| == |tags| && forall i | 0 <= i < |f| :: SameShape(f[i].subloops, tags[i].tags)
  }

  /** How many loops are directly inside the one that `path` leads to, -1 if it leads nowhere. */
  ghost function LoopsInside(f: seq<LoopTree>, path: seq<nat>): int
    decreases |path|
  {
    if path == [] then |f| else if path[0] < |f| then LoopsInside(f[path[0]].subloops, path[1..]) else -1
  }

  /** The same for tags. */
  ghost function TagsInside(tags: seq<LoopTag>, path: seq<nat>): int
    decreases |path|
  {
    if path == [] then |tags| else if path[0] < |tags| then TagsInside(tags[path[0]].tags, path[1..]) else -1
  }

  /** At every place there are as many tags as loops. */
  ghost predicate SameCounts(f: seq<LoopTree>, tags: seq<LoopTag>) {
    forall path: seq<nat> :: LoopsInside(f, path) == TagsInside(tags, path)
  }

  lemma {:induction false} SameShapeCounts(f: seq<LoopTree>, tags: seq<LoopTag>, path: seq<nat>)
    requires SameShape(f, tags)
    ensures LoopsInside(f, path) == TagsInside(tags, path)
    decreases |path|
  {
    if path != [] && path[0] < |f| {
      SameShapeCounts(f[path[0]].subloops, tags[path[0]].tags, path[1..]);
    }
  }

  lemma {:induction false} EqualCountsSameShape(f: seq<LoopTree>, tags: seq<LoopTag>)
    requires SameCounts(f, tags)
    ensures SameShape(f, tags)
    decreases f
  {
    assert LoopsInside(f, []) == TagsInside(tags, []);
    forall i | 0 <= i < |f|
      ensures SameShape(f[i].subloops, tags[i].tags)
    {
      forall path: seq<nat>
        ensures LoopsInside(f[i].subloops, path) == TagsInside(tags[i].tags, path)
      {
        assert LoopsInside(f, [i] + path) == TagsInside(tags, [i] + path);
        assert ([i] + path)[1..] == path;
      }
      EqualCountsSameShape(f[i].subloops, tags[i].tags);
    }
  }

  /** Loops and tags have one shape if and only if there are as many tags as loops at every place. */
  lemma SameShapeIffEqualCounts(f: seq<LoopTree>, tags: seq<LoopTag>)
    ensures SameShape(f, tags) <==> SameCounts(f, tags)
  {
    hide SameShape;
    if SameShape(f, tags) {
      forall path: seq<nat> ensures LoopsInside(f, path) == TagsInside(tags, path) {
        SameShapeCounts(f, tags, path);
      }
    } else if SameCounts(f, tags) {
      EqualCountsSameShape(f, tags);
    }
  }

  /** What reading the first `k` tags gives to which loops. */
  ghost function GivenTo(f: seq<LoopTree>, tags: seq<LoopTag>, k: nat): map<nat, int>
    requires SameShape(f, tags) && k <= |f|
    decreases f, k
  {
    if k == 0 then map[]
    else
      var t, x := f[k - 1], tags[k - 1];
      GivenTo(f, tags, k - 1)[t.loop := x.maxiter] + GivenTo(t.subloops, x.tags, |t.subloops|)
  }

  ghost function Given(f: seq<LoopTree>, tags: seq<LoopTag>): map<nat, int>
    requires SameShape(f, tags)
  {
    GivenTo(f, tags, |f|)
  }

  /** The tags for the first `k` trees; a loop without a bound is left out, with all inside it. */
  function GeneratedTo(f: seq<LoopTree>, bounds: seq<Bound>, k: nat): (tags: seq<LoopTag>)
    requires Fits(f, |bounds|) && k <= |f|
    ensures |tags| <= k
    decreases f, k
  {
    if k == 0 then []
    else
      var t := f[k - 1];
      GeneratedTo(f, bounds, k - 1) + match bounds[t.loop]
                                      case Unbounded => []
                                      case Bounded(v) => [LoopTag(v, GeneratedTo(t.subloops, bounds, |t.subloops|))]
  }

  function Generated(f: seq<LoopTree>, bounds: seq<Bound>): seq<LoopTag>
    requires Fits(f, |bounds|)
  {
    GeneratedTo(f, bounds, |f|)
  }

  // ---- Reading what was generated

  /** No loop of the trees is without a bound. */
  ghost predicate AllBounded(f: seq<LoopTree>, bounds: seq<Bound>) {
    forall j | j in LoopsOf(f) :: j < |bounds| && bounds[j].Bounded?
  }

  /** The loops of the trees are the ones at the top and those inside them. */
  lemma {:induction false} LoopsAre(f: seq<LoopTree>, k: nat, j: nat)
    requires k <= |f|
    ensures j in LoopsTo(f, k) <==> exists i | 0 <= i < k :: j == f[i].loop || j in LoopsOf(f[i].subloops)
  {
    if k > 0 {
      LoopsAre(f, k - 1, j);
    }
  }

  lemma {:induction false} AllBoundedIs(f: seq<LoopTree>, bounds: seq<Bound>)
    requires Fits(f, |bounds|)
    ensures AllBounded(f, bounds) <==>
            forall i | 0 <= i < |f| :: bounds[f[i].loop].Bounded? && AllBounded(f[i].subloops, bounds)
  {
    forall j: nat
      ensures j in LoopsOf(f) <==> exists i | 0 <= i < |f| :: j == f[i].loop || j in LoopsOf(f[i].subloops)
    {
      LoopsAre(f, |f|, j);
    }
    hide LoopsOf;
    if AllBounded(f, bounds) {
      forall i | 0 <= i < |f|
        ensures bounds[f[i].loop].Bounded? && AllBounded(f[i].subloops, bounds)
      {
        assert f[i].loop in LoopsOf(f);
        forall j | j in LoopsOf(f[i].subloops)
          ensures j in LoopsOf(f)
        {
        }
      }
    }
  }

  /** With as many tags as trees each tag is in its place, and no loop at the top is without a bound. */
  lemma {:induction false} TagsInPlace(f: seq<LoopTree>, bounds: seq<Bound>, k: nat, i: nat)
    requires Fits(f, |bounds|) && i < k <= |f| && |GeneratedTo(f, bounds, k)| == k
    ensures bounds[f[i].loop].Bounded?
    ensures GeneratedTo(f, bounds, k)[i] == LoopTag(bounds[f[i].loop].value, Generated(f[i].subloops, bounds))
  {
    if i < k - 1 {
      TagsInPlace(f, bounds, k - 1, i);
    }
  }

  lemma {:induction false} TagForEach(f: seq<LoopTree>, bounds: seq<Bound>, k: nat)
    requires Fits(f, |bounds|) && k <= |f|
    requires forall i | 0 <= i < k :: bounds[f[i].loop].Bounded?
    ensures |GeneratedTo(f, bounds, k)| == k
  {
    if k > 0 {
      TagForEach(f, bounds, k - 1);
    }
  }

  /** A generated file can be read back if and only if no loop is without a bound. */
  lemma {:induction false} ReadableIffAllBounded(f: seq<LoopTree>, bounds: seq<Bound>)
    requires Fits(f, |bounds|)
    ensures SameShape(f, Generated(f, bounds)) <==> AllBounded(f, bounds)
    decreases f
  {
    forall i | 0 <= i < |f|
      ensures SameShape(f[i].subloops, Generated(f[i].subloops, bounds)) <==> AllBounded(f[i].subloops, bounds)
    {
      ReadableIffAllBounded(f[i].subloops, bounds);
    }
    AllBoundedIs(f, bounds);
    hide AllBounded, GeneratedTo;
    if AllBounded(f, bounds) {
      TagForEach(f, bounds, |f|);
    }
    if |Generated(f, bounds)| == |f| {
      forall i | 0 <= i < |f|
        ensures bounds[f[i].loop].Bounded? && Generated(f, bounds)[i].tags == Generated(f[i].subloops, bounds)
      {
        TagsInPlace(f, bounds, |f|, i);
      }
    }
  }

  /** The map gives loops the bounds that they have. */
  ghost predicate Agrees(given: map<nat, int>, bounds: seq<Bound>) {
    forall j | j in given :: j < |bounds| && bounds[j] == Bounded(given[j])
  }

  lemma AgreesWithMore(given: map<nat, int>, loop: nat, v: int, inner: map<nat, int>, bounds: seq<Bound>)
    requires Agrees(given, bounds) && Agrees(inner, bounds) && loop < |bounds| && bounds[loop] == Bounded(v)
    ensures Agrees(given[loop := v] + inner, bounds)
    ensures (given[loop := v] + inner).Keys == given.Keys + {loop} + inner.Keys
  {
  }

  /** Reading back gives every loop the bound it had. */
  lemma {:induction false} ReadingRestores(f: seq<LoopTree>, bounds: seq<Bound>, k: nat)
    requires Fits(f, |bounds|) && SameShape(f, Generated(f, bounds)) && k <= |f|
    ensures GivenTo(f, Generated(f, bounds), k).Keys == LoopsTo(f, k)
    ensures Agrees(GivenTo(f, Generated(f, bounds), k), bounds)
    decreases f, k
  {
    hide Agrees, GeneratedTo;
    if k > 0 {
      var t, tags := f[k - 1], Generated(f, bounds);
      ReadingRestores(f, bounds, k - 1);
      TagsInPlace(f, bounds, |f|, k - 1);
      ReadingRestores(t.subloops, bounds, |t.subloops|);
      var given, inner := GivenTo(f, tags, k - 1), Given(t.subloops, tags[k - 1].tags);
      AgreesWithMore(given, t.loop, tags[k - 1].maxiter, inner, bounds);
    } else {
      NothingAgrees(bounds);
    }
  }

  lemma NothingAgrees(bounds: seq<Bound>)
    ensures Agrees(map[], bounds)
  {
  }
}

/** `addAnnotationsFromFileToLoop` and `GenerateAnnotationXMLForLoop`, on a given nesting of the loops. */
module LoopFiles {
  import opened Sequences
  import opened LoopSpec
  import opened LoopAnalysis
  import opened Annotations
  import opened LoopFileSpec

  /** Gives the loops the bounds of the tags; fails when some loop has not as many tags as loops inside. */
  method AddAnnotations(ll: seq<Loop>, f: seq<LoopTree>, tags: seq<LoopTag>) returns (ok: bool)
    requires NoDuplicates(ll) && Fits(f, |ll|)
    modifies set l | l in ll :: l`maxiter
    ensures ok <==> SameShape(f, tags)
    ensures ok <==> SameCounts(f, tags)
    ensures ok ==> forall j | 0 <= j < |ll| ::
              ll[j].maxiter == if j in Given(f, tags) then Bounded(Given(f, tags)[j]) else old(ll[j].maxiter)
    decreases f
  {
    SameShapeIffEqualCounts(f, tags);
    if |f| != |tags| {
      return false;
    }
    for k := 0 to |f|
      invariant forall i | 0 <= i < k :: SameShape(f[i].subloops, tags[i].tags)
      invariant SameShape(f, tags) ==> forall j | 0 <= j < |ll| ::
                  ll[j].maxiter == if j in GivenTo(f, tags, k) then Bounded(GivenTo(f, tags, k)[j]) else old(ll[j].maxiter)
    {
      assert ll[f[k].loop] in ll;
      ll[f[k].loop].maxiter := Bounded(tags[k].maxiter);
      ok := AddAnnotations(ll, f[k].subloops, tags[k].tags);
      if !ok {
        return;
      }
    }
    ok := true;
  }

  /** Writes the tags of the loops that have a bound. */
  method GenerateAnnotations(ll: seq<Loop>, f: seq<LoopTree>) returns (tags: seq<LoopTag>)
    requires Fits(f, |ll|)
    ensures tags == Generated(f, Bounds(ll))
    decreases f
  {
    tags := [];
    for k := 0 to |f|
      invariant tags == GeneratedTo(f, Bounds(ll), k)
    {
      var bound := ll[f[k].loop].maxiter;
      if bound.Bounded? {
        var inner := GenerateAnnotations(ll, f[k].subloops);
        tags := tags + [LoopTag(bound.value, inner)];
      }
    }
  }

  /** The bounds of the loops written to a file and read into the loops `later` of the same function. */
  method WriteAndRead(ll: seq<Loop>, f: seq<LoopTree>, later: seq<Loop>) returns (ok: bool)
    requires NoDuplicates(later) && |ll| == |later| && Fits(f, |ll|)
    modifies set l | l in later :: l`maxiter
    ensures ok <==> AllBounded(f, old(Bounds(ll)))
    ensures ok ==> forall j | 0 <= j < |ll| ::
              later[j].maxiter == if j in LoopsOf(f) then old(ll[j].maxiter) else old(later[j].maxiter)
  {
    ghost var bounds := Bounds(ll);
    var tags := GenerateAnnotations(ll, f);
    ReadableIffAllBounded(f, bounds);
    if SameShape(f, tags) {
      ReadingRestores(f, bounds, |f|);
    }
    hide SameShape, AllBounded, Generated, Fits;
    ok := AddAnnotations(later, f, tags);
  }
}
