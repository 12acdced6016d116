/** Finite directed graphs given by their set of edges: paths, reachability, cycles. */
module Graphs {

  /** Nodes are named, as in a workflow or a specification. */
  type Node = string

  /** p visits at least one node and every step of it is an edge of e. */
  ghost predicate IsPath(e: set<(Node, Node)>, p: seq<Node>) {
    && |p| > 0
    && forall i, j :: 0 <= i && j == i + 1 && j < |p| ==> (p[i], p[j]) in e
  }

  ghost predicate IsPathBetween(e: set<(Node, Node)>, a: Node, p: seq<Node>, b: Node) {
    IsPath(e, p) && p[0] == a && p[|p| - 1] == b
  }

  ghost predicate Reaches(e: set<(Node, Node)>, a: Node, b: Node) {
    exists p :: IsPathBetween(e, a, p, b)
  }

  /** No path with at least one edge ends where it began. */
  ghost predicate Acyclic(e: set<(Node, Node)>) {
    forall p :: IsPath(e, p) && |p| >= 2 ==> p[0] != p[|p| - 1]
  }

  ghost predicate Distinct<T>(s: seq<T>) {
    forall i, j :: 0 <= i < j < |s| ==> s[i] != s[j]
  }

  lemma ReachesSelf(e: set<(Node, Node)>, a: Node)
    ensures Reaches(e, a, a)
  {
    assert IsPathBetween(e, a, [a], a);
  }

  lemma PathConcat(e: set<(Node, Node)>, p: seq<Node>, q: seq<Node>)
    requires IsPath(e, p) && IsPath(e, q) && p[|p| - 1] == q[0]
    ensures IsPathBetween(e, p[0], p + q[1..], q[|q| - 1])
  {
  }

  lemma ReachesTrans(e: set<(Node, Node)>, a: Node, b: Node, c: Node)
    requires Reaches(e, a, b) && Reaches(e, b, c)
    ensures Reaches(e, a, c)
  {
    var p :| IsPathBetween(e, a, p, b);
    var q :| IsPathBetween(e, b, q, c);
    PathConcat(e, p, q);
  }

  lemma ReachesStep(e: set<(Node, Node)>, a: Node, b: Node, c: Node)
    requires Reaches(e, a, b) && (b, c) in e
    ensures Reaches(e, a, c)
  {
    assert IsPathBetween(e, b, [b, c], c);
    ReachesTrans(e, a, b, c);
  }

  lemma ReachesMono(e: set<(Node, Node)>, f: set<(Node, Node)>, a: Node, b: Node)
    requires e <= f && Reaches(e, a, b)
    ensures Reaches(f, a, b)
  {
    var p :| IsPathBetween(e, a, p, b);
    assert IsPathBetween(f, a, p, b);
  }

  lemma PathBegins(e: set<(Node, Node)>, p: seq<Node>)
    requires IsPath(e, p)
    ensures |p| > 1 ==> (p[0], p[1]) in e
  {
  }

  lemma SubPath(e: set<(Node, Node)>, p: seq<Node>, i: nat, j: nat)
    requires IsPath(e, p) && i <= j < |p|
    ensures IsPathBetween(e, p[i], p[i..j + 1], p[j])
  {
  }

  /** A set closed under the edges keeps every path that starts in it. */
  lemma {:induction false} ClosedKeepsPath(e: set<(Node, Node)>, inside: Node -> bool, p: seq<Node>)
    requires IsPath(e, p) && inside(p[0])
    requires forall a, b :: (a, b) in e && inside(a) ==> inside(b)
    ensures forall i :: 0 <= i < |p| ==> inside(p[i])
  {
    var k := 1;
    while k < |p|
      invariant 1 <= k <= |p|
      invariant forall i :: 0 <= i < k ==> inside(p[i])
    {
      assert (p[k - 1], p[k]) in e;
      k := k + 1;
    }
  }

  /** A rank that every edge lowers rules out cycles. */
  lemma RankedIsAcyclic(e: set<(Node, Node)>, rank: map<Node, nat>)
    requires forall u, v :: (u, v) in e ==> u in rank && v in rank && rank[v] < rank[u]
    ensures Acyclic(e)
  {
    forall p | IsPath(e, p) && |p| >= 2 ensures p[0] != p[|p| - 1] {
      assert (p[0], p[1]) in e;
      var k := 1;
      while k < |p| - 1
        invariant 1 <= k < |p|
        invariant p[k] in rank && p[0] in rank && rank[p[k]] < rank[p[0]]
      {
        assert (p[k], p[k + 1]) in e;
        k := k + 1;
      }
    }
  }

  lemma AcyclicPathDistinct(e: set<(Node, Node)>, p: seq<Node>)
    requires Acyclic(e) && IsPath(e, p)
    ensures Distinct(p)
  {
    forall i, j | 0 <= i < j < |p| ensures p[i] != p[j] {
      SubPath(e, p, i, j);
      assert |p[i..j + 1]| >= 2;
    }
  }

  /** Pigeonhole: a duplicate-free sequence drawn from a set is no longer than the set. */
  lemma {:induction false} DistinctFits<T>(s: seq<T>, pool: set<T>)
    requires Distinct(s)
    requires forall i :: 0 <= i < |s| ==> s[i] in pool
    ensures |s| <= |pool|
  {
    if |s| > 0 {
      var last := s[|s| - 1];
      DistinctFits(s[..|s| - 1], pool - {last});
      assert |pool - {last}| == |pool| - 1;
    }
  }

  /** In an acyclic graph whose edges all leave `sources`, no path has more edges than there are sources. */
  lemma AcyclicPathBound(e: set<(Node, Node)>, sources: set<Node>, p: seq<Node>)
    requires Acyclic(e) && IsPath(e, p)
    requires forall u, v :: (u, v) in e ==> u in sources
    ensures |p| - 1 <= |sources|
  {
    AcyclicPathDistinct(e, p);
    var q := p[..|p| - 1];
    forall i | 0 <= i < |q| ensures q[i] in sources {
      assert (p[i], p[i + 1]) in e;
    }
    DistinctFits(q, sources);
  }
}
