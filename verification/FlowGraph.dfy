/** Control-flow graphs as the extractor's analyses see them, with their paths.

    A node is a `Node*` of cfglib, which the analyses only compare.
    `nodes` is `GetAllNodes()`, `preds[n]` is `GetPredecessors(n)`. */
module FlowGraph {
  import opened Sequences

  type Node = nat

  datatype Graph = Graph(nodes: seq<Node>, start: Node, preds: map<Node, seq<Node>>) {
    ghost predicate Valid() {
      && NoDuplicates(nodes)
      && start in nodes
      && (forall n | n in nodes :: n in preds && forall p | p in preds[n] :: p in nodes)
    }

    function Predecessors(n: Node): seq<Node> {
      if n in preds then preds[n] else []
    }

    function NodeSet(): set<Node> {
      set n | n in nodes
    }
  }

  ghost predicate Edge(g: Graph, a: Node, b: Node) {
    b in g.nodes && a in g.Predecessors(b)
  }

  /** A non-empty walk along edges; its length in edges is `|p| - 1`. */
  ghost predicate Path(g: Graph, p: seq<Node>) {
    |p| > 0 && p[0] in g.nodes && forall i | 0 <= i < |p| - 1 :: Edge(g, p[i], p[i + 1])
  }

  ghost predicate PathBetween(g: Graph, p: seq<Node>, a: Node, b: Node) {
    Path(g, p) && p[0] == a && p[|p| - 1] == b
  }

  ghost predicate Reachable(g: Graph, n: Node) {
    exists p :: PathBetween(g, p, g.start, n)
  }

  /** `d` is on every path from the start node to `n`; vacuous when there is none. */
  ghost predicate Dominates(g: Graph, d: Node, n: Node) {
    forall p | PathBetween(g, p, g.start, n) :: d in p
  }

  /** Some path leads from `x` to `t` without meeting `avoid`. */
  ghost predicate ReachesAvoiding(g: Graph, x: Node, t: Node, avoid: set<Node>) {
    exists p :: PathBetween(g, p, x, t) && forall v | v in p :: v !in avoid
  }

  /** The nodes of `g` that dominate `n`. */
  ghost function Dominators(g: Graph, n: Node): set<Node> {
    set d | d in g.nodes && Dominates(g, d, n)
  }

  // ---- Building and cutting paths

  lemma PathStaysInside(g: Graph, p: seq<Node>)
    requires g.Valid() && Path(g, p)
    ensures forall v | v in p :: v in g.nodes
  {
    forall i | 0 <= i < |p|
      ensures p[i] in g.nodes
    {
      if i > 0 {
        assert Edge(g, p[i - 1], p[i]);
      }
    }
  }

  lemma ExtendPath(g: Graph, p: seq<Node>, a: Node, b: Node, c: Node)
    requires PathBetween(g, p, a, b) && Edge(g, b, c)
    ensures PathBetween(g, p + [c], a, c)
  {
    var q := p + [c];
    forall i | 0 <= i < |q| - 1
      ensures Edge(g, q[i], q[i + 1])
    {
      if i < |p| - 1 {
        assert Edge(g, p[i], p[i + 1]);
      }
    }
  }

  lemma JoinPaths(g: Graph, p: seq<Node>, q: seq<Node>, a: Node, b: Node, c: Node)
    requires PathBetween(g, p, a, b) && PathBetween(g, q, b, c)
    ensures PathBetween(g, p + q[1..], a, c)
    ensures forall v | v in p + q[1..] :: v in p || v in q
  {
    var r := p + q[1..];
    forall i | 0 <= i < |r| - 1
      ensures Edge(g, r[i], r[i + 1])
    {
      if i < |p| - 1 {
        assert Edge(g, p[i], p[i + 1]);
      } else {
        var j := i - (|p| - 1);
        assert r[i] == q[j] && r[i + 1] == q[j + 1];
        assert Edge(g, q[j], q[j + 1]);
      }
    }
  }

  /** A stretch of a path is a path. */
  lemma SubPath(g: Graph, p: seq<Node>, i: nat, j: nat)
    requires g.Valid() && Path(g, p) && i <= j < |p|
    ensures PathBetween(g, p[i..j + 1], p[i], p[j])
  {
    PathStaysInside(g, p);
    var q := p[i..j + 1];
    assert q[0] == p[i];
    forall k | 0 <= k < |q| - 1
      ensures Edge(g, q[k], q[k + 1])
    {
      assert Edge(g, p[i + k], p[i + k + 1]);
    }
  }

  /** Every path can be cut down to a repetition-free one through some of its nodes. */
  lemma {:induction false} SimplePath(g: Graph, p: seq<Node>, a: Node, b: Node) returns (q: seq<Node>)
    requires g.Valid() && PathBetween(g, p, a, b)
    ensures PathBetween(g, q, a, b) && NoDuplicates(q)
    ensures forall v | v in q :: v in p
    decreases |p|
  {
    if NoDuplicates(p) {
      q := p;
    } else {
      var i, j :| 0 <= i < j < |p| && p[i] == p[j];
      SubPath(g, p, 0, i);
      SubPath(g, p, j, |p| - 1);
      assert p[0..i + 1] == p[..i + 1] && p[j..|p| - 1 + 1] == p[j..];
      JoinPaths(g, p[..i + 1], p[j..], a, p[i], b);
      q := SimplePath(g, p[..i + 1] + p[j..][1..], a, b);
    }
  }
}
