/**
 A workflow's diagram and its execution: the transitions that are drawn
 (render.py, `_node_edges`) against those the engine may take.
 */
module Diagrams {
  import opened Graphs
  import opened Wrappers
  import opened Workflows
  import opened Engine
  import opened BackEdges

  /** The targets of a step's arrows; an empty name draws none. */
  function DrawnTargets(step: Step): set<Node> {
    match step
    case If(_, then_, else_) => NonEmpty({then_, else_})
    case Switch(_, cases, default) => NonEmpty(cases.Values) + NonEmpty(if default.Some? then {default.value} else {})
    case End(_, _) => {}
    case Start(_, next) => NonEmpty({next})
    case Task(_, _, _, next) => NonEmpty({next})
  }

  function NonEmpty(names: set<Node>): set<Node> {
    set n | n in names && n != ""
  }

  /** `edges` lists the arrows of every step that has a name, in some order. */
  ghost predicate ListsArrows(edges: Targets, m: map<Node, Step>) {
    && (forall n :: n in edges <==> n in m && n != "")
    && forall n, t :: n in edges ==> (t in edges[n] <==> t in DrawnTargets(m[n]))
  }

  /** The arrows of a valid workflow are its transitions, as far as both steps have a name. */
  lemma ArrowsAreTransitions(edges: Targets, m: map<Node, Step>)
    requires Closed(m) && ListsArrows(edges, m)
    ensures forall u, v :: (u, v) in AllEdges(edges) <==> (u, v) in Transitions(m) && u != "" && v != ""
  {
  }

  ghost predicate BackEdgeInReach(e: set<(Node, Node)>, start: Node, back: set<(Node, Node)>) {
    exists u, v :: (u, v) in back && Reaches(e, start, u)
  }

  /** A reachable cycle has an edge among the back edges. */
  lemma CycleHasBackEdge(g: Targets, start: Node, back: set<(Node, Node)>, c: seq<Node>)
    requires IsBackEdgeSet(g, start, back)
    requires IsPath(AllEdges(g), c) && |c| >= 2 && c[0] == c[|c| - 1] && Reaches(AllEdges(g), start, c[0])
    ensures BackEdgeInReach(AllEdges(g), start, back)
  {
    var e := AllEdges(g);
    assert !IsPath(Forward(g, back), c);
    var i := LeavesForward(g, back, c);
    SubPath(e, c, 0, i);
    assert Reaches(e, c[0], c[i]);
    ReachesTrans(e, start, c[0], c[i]);
  }

  lemma LeavesForward(g: Targets, back: set<(Node, Node)>, c: seq<Node>) returns (i: nat)
    requires IsPath(AllEdges(g), c) && !IsPath(Forward(g, back), c)
    ensures i + 1 < |c| && (c[i], c[i + 1]) in back
  {
    var k, l :| 0 <= k && l == k + 1 && l < |c| && (c[k], c[l]) !in Forward(g, back);
    assert (c[k], c[l]) in AllEdges(g);
    i := k;
  }

  /** No back edge within reach of the start, no cycle there, and the other way round. */
  lemma BackEdgesShowCycles(g: Targets, start: Node, back: set<(Node, Node)>)
    requires IsBackEdgeSet(g, start, back)
    ensures BackEdgeInReach(AllEdges(g), start, back) <==> !NoCycleFrom(AllEdges(g), start)
  {
    var e := AllEdges(g);
    if !NoCycleFrom(e, start) {
      var c :| IsPath(e, c) && |c| >= 2 && Reaches(e, start, c[0]) && c[0] == c[|c| - 1];
      CycleHasBackEdge(g, start, back, c);
    }
    if BackEdgeInReach(e, start, back) {
      var u, v :| (u, v) in back && Reaches(e, start, u);
      var c := CycleThrough(g, start, back, u, v);
      assert !NoCycleFrom(e, start);
    }
  }

  lemma NamedPath(edges: Targets, m: map<Node, Step>, p: seq<Node>)
    requires Closed(m) && ListsArrows(edges, m) && IsPath(Transitions(m), p) && "" !in p
    ensures IsPath(AllEdges(edges), p)
  {
    ArrowsAreTransitions(edges, m);
    forall i, j | 0 <= i && j == i + 1 && j < |p| ensures (p[i], p[j]) in AllEdges(edges) {
      assert p[i] in p && p[j] in p;
    }
  }

  /** A cycle that a node reaches is a cycle that anything before that node reaches. */
  lemma CycleSeenFromBefore(e: set<(Node, Node)>, start: Node, middle: Node)
    requires Reaches(e, start, middle) && !NoCycleFrom(e, middle)
    ensures !NoCycleFrom(e, start)
  {
    var c :| IsPath(e, c) && |c| >= 2 && Reaches(e, middle, c[0]) && c[0] == c[|c| - 1];
    ReachesTrans(e, start, middle, c[0]);
  }

  lemma ReachesOnPath(e: set<(Node, Node)>, p: seq<Node>, i: nat, j: nat)
    requires IsPath(e, p) && i <= j < |p|
    ensures Reaches(e, p[i], p[j])
  {
    SubPath(e, p, i, j);
  }

  /** A reachable cycle is drawn, unless it is reached by way of the unnamed step. */
  lemma CycleIsDrawn(edges: Targets, m: map<Node, Step>, start: Node)
    requires Closed(m) && ListsArrows(edges, m) && !NoCycleFrom(Transitions(m), start)
    ensures !NoCycleFrom(AllEdges(edges), start) || (Reaches(Transitions(m), start, "") && !NoCycleFrom(Transitions(m), ""))
  {
    var (e, d) := (Transitions(m), AllEdges(edges));
    var c :| IsPath(e, c) && |c| >= 2 && Reaches(e, start, c[0]) && c[0] == c[|c| - 1];
    var p :| IsPathBetween(e, start, p, c[0]);
    if k :| 0 <= k < |p| && p[k] == "" {
      ReachesOnPath(e, p, 0, k);
      ReachesOnPath(e, p, k, |p| - 1);
    } else if k :| 0 <= k < |c| && c[k] == "" {
      ReachesOnPath(e, c, 0, k);
      ReachesTrans(e, start, c[0], "");
      ReachesOnPath(e, c, k, |c| - 1);
    } else {
      NamedPath(edges, m, p);
      NamedPath(edges, m, c);
      assert IsPathBetween(d, start, p, c[0]);
    }
  }

  lemma DrawnCycleIsReal(edges: Targets, m: map<Node, Step>, start: Node)
    requires Closed(m) && ListsArrows(edges, m) && !NoCycleFrom(AllEdges(edges), start)
    ensures !NoCycleFrom(Transitions(m), start)
  {
    var (e, d) := (Transitions(m), AllEdges(edges));
    ArrowsAreTransitions(edges, m);
    assert d <= e;
    var c :| IsPath(d, c) && |c| >= 2 && Reaches(d, start, c[0]) && c[0] == c[|c| - 1];
    ReachesMono(d, e, start, c[0]);
    assert IsPath(e, c);
  }

  /**
   What the diagram tells about execution: with a limit of at least one visit per step, some
   run can exceed it if and only if a back edge is drawn within reach of the start, or the
   loop lies behind the step without a name, which is not drawn.
   */
  lemma DiagramTellsAboutLimit(edges: Targets, m: map<Node, Step>, start: Node, back: set<(Node, Node)>, cap: nat)
    requires Closed(m) && start in m && ListsArrows(edges, m) && |m| <= cap
    requires IsBackEdgeSet(edges, start, back)
    ensures CanHitLimit(m, cap, start) <==>
            BackEdgeInReach(AllEdges(edges), start, back)
            || (Reaches(Transitions(m), start, "") && !NoCycleFrom(Transitions(m), ""))
  {
    BackEdgesShowCycles(edges, start, back);
    LimitIsAboutLoops(m, cap, start);
    if !NoCycleFrom(Transitions(m), start) {
      CycleIsDrawn(edges, m, start);
    }
    if !NoCycleFrom(AllEdges(edges), start) {
      DrawnCycleIsReal(edges, m, start);
    }
    if Reaches(Transitions(m), start, "") && !NoCycleFrom(Transitions(m), "") {
      CycleSeenFromBefore(Transitions(m), start, "");
    }
  }

  /** With every step named, that is: if and only if a back edge is drawn within reach. */
  lemma NamedDiagramTellsAll(edges: Targets, m: map<Node, Step>, start: Node, back: set<(Node, Node)>, cap: nat)
    requires Closed(m) && start in m && "" !in m && ListsArrows(edges, m) && |m| <= cap
    requires IsBackEdgeSet(edges, start, back)
    ensures CanHitLimit(m, cap, start) <==> BackEdgeInReach(Transitions(m), start, back)
  {
    ArrowsAreTransitions(edges, m);
    assert AllEdges(edges) == Transitions(m);
    DiagramTellsAboutLimit(edges, m, start, back, cap);
    if Reaches(Transitions(m), start, "") {
      var p :| IsPathBetween(Transitions(m), start, p, "");
      assert |p| > 1 ==> (p[|p| - 2], "") in Transitions(m);
    }
  }
}
