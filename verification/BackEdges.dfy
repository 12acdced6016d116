/**
 Loop-closing edges of a workflow graph, found by an iterative depth-first search
 with an explicit stack of (node, iterator) frames (render.py, `_back_edges`).
 */
module BackEdges {
  import opened Graphs

  /** Each node's transition targets in order. A target need not be a node itself. */
  type Targets = map<Node, seq<Node>>

  const ON_STACK := 1
  const DONE := 2

  /** The lookup with an empty default. */
  function Out(g: Targets, n: Node): seq<Node> {
    if n in g then g[n] else []
  }

  function AllEdges(g: Targets): set<(Node, Node)> {
    set u, v | u in g && v in g[u] :: (u, v)
  }

  /** The edges that layering keeps: everything but the back edges. */
  function Forward(g: Targets, back: set<(Node, Node)>): set<(Node, Node)> {
    AllEdges(g) - back
  }

  /** What the set of back edges is for, with respect to the node the drawing starts from. */
  ghost predicate IsBackEdgeSet(g: Targets, root: Node, back: set<(Node, Node)>) {
    && back <= AllEdges(g)
    // each one closes a real cycle, by a way back that survives the removal
    && (forall u, v :: (u, v) in back ==> v in g && Reaches(Forward(g, back), v, u))
    // nothing else does
    && Acyclic(Forward(g, back))
    // and no node is cut off from the root
    && (root in g ==> forall n :: Reaches(AllEdges(g), root, n) ==> Reaches(Forward(g, back), root, n))
  }

  /** One entry of the search stack: a node and how many of its targets its iterator has handed out. */
  datatype Frame = Frame(node: Node, next: nat)

  /** The search state: the source's colours and result, with the discovery tree and finishing times. */
  datatype Search = Search(
    color: map<Node, int>,
    back: set<(Node, Node)>,
    tree: set<(Node, Node)>,
    finish: map<Node, nat>)

  ghost predicate OnStack(stack: seq<Frame>, n: Node) {
    exists i :: 0 <= i < |stack| && stack[i].node == n
  }

  ghost predicate ColoursMatch(s: Search, stack: seq<Frame>) {
    && (forall i, j :: 0 <= i < j < |stack| ==> stack[i].node != stack[j].node)
    && (forall n :: n in s.color && s.color[n] == ON_STACK <==> OnStack(stack, n))
    && (forall n :: n in s.finish <==> n in s.color && s.color[n] == DONE)
    && (forall n :: n in s.color ==> s.color[n] == ON_STACK || s.color[n] == DONE)
    && (forall n :: n in s.finish ==> s.finish[n] < |s.finish|)
  }

  /** Every edge out of a finished node is a back edge or leads to a node finished earlier. */
  ghost predicate FinishedSettled(g: Targets, s: Search) {
    forall u, v :: u in s.finish && u in g && v in g[u] && v in g ==>
      (u, v) in s.back || (v in s.finish && s.finish[v] < s.finish[u])
  }

  /** Target v of stack[k] has been dealt with, or is being searched in the frame above. */
  ghost predicate Handled(g: Targets, s: Search, stack: seq<Frame>, k: nat, v: Node)
    requires k < |stack|
  {
    v in g ==>
      || (stack[k].node, v) in s.back
      || v in s.finish
      || (k + 1 < |stack| && stack[k + 1].node == v)
  }

  ghost predicate FramesHandled(g: Targets, s: Search, stack: seq<Frame>) {
    && (forall k :: 0 <= k < |stack| ==> stack[k].next <= |Out(g, stack[k].node)|)
    && (forall k, j :: 0 <= k < |stack| && 0 <= j < stack[k].next ==>
          Handled(g, s, stack, k, Out(g, stack[k].node)[j]))
  }

  ghost predicate TreeMatches(g: Targets, s: Search, stack: seq<Frame>) {
    && s.tree <= AllEdges(g)
    && s.tree !! s.back
    && (forall a, b :: (a, b) in s.tree ==> a in s.color && b in s.color && b in g)
    && (forall k, l :: 0 <= k && l == k + 1 && l < |stack| ==> (stack[k].node, stack[l].node) in s.tree)
    // a tree edge into a node on the stack comes from the frame below it
    && (forall a, l :: 0 <= l < |stack| && (a, stack[l].node) in s.tree ==> l > 0 && stack[l - 1].node == a)
  }

  ghost predicate BackMatches(g: Targets, s: Search) {
    && s.back <= AllEdges(g)
    && (forall u, v :: (u, v) in s.back ==> v in g && v in s.color && Reaches(s.tree, v, u))
  }

  ghost predicate Inv(g: Targets, s: Search, stack: seq<Frame>) {
    && ColoursMatch(s, stack)
    && FinishedSettled(g, s)
    && FramesHandled(g, s, stack)
    && TreeMatches(g, s, stack)
    && BackMatches(g, s)
  }

  /** What one call of `visit` adds hangs off its root in the discovery tree. */
  ghost predicate HangsOff(s0: Search, s: Search, root: Node) {
    && s0.tree <= s.tree
    && s0.color.Keys <= s.color.Keys
    && root in s.color
    && forall n :: n in s.color && n !in s0.color ==> Reaches(s.tree, root, n)
  }

  // ------------------------------------------------------------------ the steps of the search

  function Advance(stack: seq<Frame>): seq<Frame>
    requires |stack| > 0
  {
    var top := stack[|stack| - 1];
    stack[|stack| - 1 := Frame(top.node, top.next + 1)]
  }

  /** The target the top iterator hands out next. */
  ghost predicate NextTarget(g: Targets, stack: seq<Frame>, v: Node) {
    && |stack| > 0
    && var top := stack[|stack| - 1];
    && top.next < |Out(g, top.node)|
    && Out(g, top.node)[top.next] == v
  }

  /** Advancing the top iterator over a target that now counts as handled. */
  lemma AdvanceKeepsFrames(g: Targets, s: Search, stack: seq<Frame>, v: Node)
    requires FramesHandled(g, s, stack) && NextTarget(g, stack, v)
    requires v in g ==> (stack[|stack| - 1].node, v) in s.back || v in s.finish
    ensures FramesHandled(g, s, Advance(stack))
  {
    var t := Advance(stack);
    forall k, j | 0 <= k < |t| && 0 <= j < t[k].next
      ensures Handled(g, s, t, k, Out(g, t[k].node)[j])
    {
      if j < stack[k].next {
        assert Handled(g, s, stack, k, Out(g, stack[k].node)[j]);
      }
    }
  }

  lemma AdvanceKeepsColours(s: Search, stack: seq<Frame>)
    requires |stack| > 0 && ColoursMatch(s, stack)
    ensures ColoursMatch(s, Advance(stack))
  {
    var t := Advance(stack);
    forall n ensures OnStack(stack, n) <==> OnStack(t, n) {
      if OnStack(stack, n) {
        var i :| 0 <= i < |stack| && stack[i].node == n;
        assert t[i].node == n;
      }
    }
  }

  lemma {:induction false} StackIsTreePath(g: Targets, s: Search, stack: seq<Frame>, i: nat, j: nat)
    requires TreeMatches(g, s, stack) && i <= j < |stack|
    ensures Reaches(s.tree, stack[i].node, stack[j].node)
    decreases j
  {
    if i == j {
      ReachesSelf(s.tree, stack[i].node);
    } else {
      StackIsTreePath(g, s, stack, i, j - 1);
      ReachesStep(s.tree, stack[i].node, stack[j - 1].node, stack[j].node);
    }
  }

  lemma AdvanceKeepsTree(g: Targets, s: Search, stack: seq<Frame>)
    requires |stack| > 0 && TreeMatches(g, s, stack)
    ensures TreeMatches(g, s, Advance(stack))
  {
  }

  /** A dangling or finished target is passed over. */
  lemma StepSkip(g: Targets, s: Search, stack: seq<Frame>, v: Node)
    requires Inv(g, s, stack) && NextTarget(g, stack, v)
    requires v !in g || (v in s.color && s.color[v] == DONE)
    ensures Inv(g, s, Advance(stack))
  {
    AdvanceKeepsFrames(g, s, stack, v);
    AdvanceKeepsColours(s, stack);
    AdvanceKeepsTree(g, s, stack);
  }

  ghost function WithBack(s: Search, u: Node, v: Node): Search {
    s.(back := s.back + {(u, v)})
  }

  lemma WithBackKeepsFrames(g: Targets, s: Search, stack: seq<Frame>, u: Node, v: Node)
    requires FramesHandled(g, s, stack)
    ensures FramesHandled(g, WithBack(s, u, v), stack)
  {
  }

  /** The top of the stack is nobody's parent among the nodes on the stack. */
  lemma BackIsNotTree(g: Targets, s: Search, stack: seq<Frame>, v: Node)
    requires |stack| > 0 && ColoursMatch(s, stack) && TreeMatches(g, s, stack) && OnStack(stack, v)
    ensures (stack[|stack| - 1].node, v) !in s.tree
    ensures Reaches(s.tree, v, stack[|stack| - 1].node)
  {
    var i :| 0 <= i < |stack| && stack[i].node == v;
    StackIsTreePath(g, s, stack, i, |stack| - 1);
  }

  lemma WithBackKeepsColours(s: Search, stack: seq<Frame>, u: Node, v: Node)
    requires ColoursMatch(s, stack)
    ensures ColoursMatch(WithBack(s, u, v), stack)
  {
  }

  lemma WithBackKeepsTree(g: Targets, s: Search, stack: seq<Frame>, u: Node, v: Node)
    requires TreeMatches(g, s, stack) && (u, v) !in s.tree
    ensures TreeMatches(g, WithBack(s, u, v), stack)
  {
  }

  lemma WithBackKeepsBack(g: Targets, s: Search, u: Node, v: Node)
    requires BackMatches(g, s)
    requires (u, v) in AllEdges(g) && v in g && v in s.color && Reaches(s.tree, v, u)
    ensures BackMatches(g, WithBack(s, u, v))
  {
  }

  /** A target on the stack closes a cycle. */
  lemma StepBack(g: Targets, s: Search, stack: seq<Frame>, v: Node)
    requires Inv(g, s, stack) && NextTarget(g, stack, v)
    requires v in g && v in s.color && s.color[v] == ON_STACK
    ensures Inv(g, WithBack(s, stack[|stack| - 1].node, v), Advance(stack))
  {
    var u := stack[|stack| - 1].node;
    var s' := WithBack(s, u, v);
    BackIsNotTree(g, s, stack, v);
    WithBackKeepsColours(s, stack, u, v);
    AdvanceKeepsColours(s', stack);
    WithBackKeepsFrames(g, s, stack, u, v);
    AdvanceKeepsFrames(g, s', stack, v);
    WithBackKeepsTree(g, s, stack, u, v);
    AdvanceKeepsTree(g, s', stack);
    WithBackKeepsBack(g, s, u, v);
  }

  ghost function WithPush(s: Search, u: Node, v: Node): Search {
    s.(color := s.color[v := ON_STACK], tree := s.tree + {(u, v)})
  }

  lemma PushKeepsColours(s: Search, stack: seq<Frame>, u: Node, v: Node)
    requires |stack| > 0 && ColoursMatch(s, stack) && v !in s.color
    ensures ColoursMatch(WithPush(s, u, v), stack + [Frame(v, 0)])
  {
    var t := stack + [Frame(v, 0)];
    assert t[|stack|].node == v;
    forall n ensures OnStack(t, n) <==> OnStack(stack, n) || n == v {
      if OnStack(stack, n) {
        var i :| 0 <= i < |stack| && stack[i].node == n;
        assert t[i].node == n;
      }
    }
    assert !OnStack(stack, v);
  }

  lemma PushKeepsFrames(g: Targets, s: Search, stack: seq<Frame>, v: Node)
    requires FramesHandled(g, s, stack) && NextTarget(g, stack, v)
    ensures FramesHandled(g, WithPush(s, stack[|stack| - 1].node, v), Advance(stack) + [Frame(v, 0)])
  {
    var t := Advance(stack) + [Frame(v, 0)];
    forall k, j | 0 <= k < |t| && 0 <= j < t[k].next
      ensures Handled(g, WithPush(s, stack[|stack| - 1].node, v), t, k, Out(g, t[k].node)[j])
    {
      if j < stack[k].next {
        assert Handled(g, s, stack, k, Out(g, stack[k].node)[j]);
      }
    }
  }

  lemma PushKeepsTree(g: Targets, s: Search, stack: seq<Frame>, v: Node)
    requires |stack| > 0 && TreeMatches(g, s, stack) && BackMatches(g, s)
    requires var u := stack[|stack| - 1].node; u in s.color && u in g && v in g[u]
    requires v in g && v !in s.color && forall i :: 0 <= i < |stack| ==> stack[i].node in s.color
    ensures TreeMatches(g, WithPush(s, stack[|stack| - 1].node, v), stack + [Frame(v, 0)])
  {
  }

  lemma PushKeepsBack(g: Targets, s: Search, u: Node, v: Node)
    requires BackMatches(g, s)
    ensures BackMatches(g, WithPush(s, u, v))
  {
    forall x, y | (x, y) in s.back ensures Reaches(WithPush(s, u, v).tree, y, x) {
      ReachesMono(s.tree, WithPush(s, u, v).tree, y, x);
    }
  }

  lemma StackIsColoured(s: Search, stack: seq<Frame>)
    requires ColoursMatch(s, stack)
    ensures forall i :: 0 <= i < |stack| ==> stack[i].node in s.color && stack[i].node !in s.finish
  {
  }

  /** A new target is discovered and searched next. */
  lemma StepPush(g: Targets, s: Search, stack: seq<Frame>, v: Node)
    requires Inv(g, s, stack) && NextTarget(g, stack, v)
    requires v in g && v !in s.color
    ensures Inv(g, WithPush(s, stack[|stack| - 1].node, v), Advance(stack) + [Frame(v, 0)])
  {
    var u := stack[|stack| - 1].node;
    AdvanceKeepsColours(s, stack);
    StackIsColoured(s, Advance(stack));
    hide ColoursMatch, FramesHandled, TreeMatches, BackMatches, FinishedSettled, WithPush;
    PushKeepsColours(s, Advance(stack), u, v);
    PushKeepsFrames(g, s, stack, v);
    AdvanceKeepsTree(g, s, stack);
    PushKeepsTree(g, s, Advance(stack), v);
    PushKeepsBack(g, s, u, v);
    PushKeepsSettled(g, s, u, v);
  }

  lemma PushKeepsSettled(g: Targets, s: Search, u: Node, v: Node)
    requires FinishedSettled(g, s)
    ensures FinishedSettled(g, WithPush(s, u, v))
  {
  }

  ghost function WithDone(s: Search, u: Node): Search {
    s.(color := s.color[u := DONE], finish := s.finish[u := |s.finish|])
  }

  lemma OnShorterStack(stack: seq<Frame>, n: Node)
    requires |stack| > 0 && forall i, j :: 0 <= i < j < |stack| ==> stack[i].node != stack[j].node
    ensures OnStack(stack[..|stack| - 1], n) <==> OnStack(stack, n) && n != stack[|stack| - 1].node
  {
  }

  lemma PopKeepsColours(s: Search, stack: seq<Frame>)
    requires |stack| > 0 && ColoursMatch(s, stack)
    ensures ColoursMatch(WithDone(s, stack[|stack| - 1].node), stack[..|stack| - 1])
  {
    var (u, t) := (stack[|stack| - 1].node, stack[..|stack| - 1]);
    StackIsColoured(s, stack);
    FinishGrows(s, u);
    forall n ensures OnStack(t, n) <==> OnStack(stack, n) && n != u {
      OnShorterStack(stack, n);
    }
    hide OnStack;
    var s' := WithDone(s, u);
    assert forall n :: n in s'.color && s'.color[n] == ON_STACK <==> OnStack(t, n);
    assert forall n :: n in s'.finish <==> n in s'.color && s'.color[n] == DONE;
  }

  lemma FinishGrows(s: Search, u: Node)
    requires u !in s.finish
    ensures |WithDone(s, u).finish| == |s.finish| + 1
  {
  }

  lemma PopKeepsFrames(g: Targets, s: Search, stack: seq<Frame>)
    requires |stack| > 0 && FramesHandled(g, s, stack)
    ensures FramesHandled(g, WithDone(s, stack[|stack| - 1].node), stack[..|stack| - 1])
  {
  }

  lemma PopKeepsSettled(g: Targets, s: Search, stack: seq<Frame>)
    requires |stack| > 0 && FramesHandled(g, s, stack) && FinishedSettled(g, s)
    requires forall n :: n in s.finish ==> s.finish[n] < |s.finish|
    requires var top := stack[|stack| - 1]; top.next == |Out(g, top.node)| && top.node !in s.finish
    ensures FinishedSettled(g, WithDone(s, stack[|stack| - 1].node))
  {
  }

  lemma PopKeepsTree(g: Targets, s: Search, stack: seq<Frame>)
    requires |stack| > 0 && TreeMatches(g, s, stack)
    ensures TreeMatches(g, WithDone(s, stack[|stack| - 1].node), stack[..|stack| - 1])
  {
  }

  /** An exhausted node is finished, after everything it leads to. */
  lemma StepPop(g: Targets, s: Search, stack: seq<Frame>)
    requires Inv(g, s, stack) && |stack| > 0
    requires var top := stack[|stack| - 1]; top.next == |Out(g, top.node)|
    ensures Inv(g, WithDone(s, stack[|stack| - 1].node), stack[..|stack| - 1])
  {
    StackIsColoured(s, stack);
    PopKeepsColours(s, stack);
    PopKeepsFrames(g, s, stack);
    PopKeepsSettled(g, s, stack);
    PopKeepsTree(g, s, stack);
  }

  // ------------------------------------------------------------------ one search, as a whole

  /** The invariant of one call of `visit`. */
  ghost predicate Visiting(g: Targets, s0: Search, s: Search, root: Node, stack: seq<Frame>) {
    && Inv(g, s, stack)
    && HangsOff(s0, s, root)
    && (|stack| > 0 ==> stack[0].node == root)
  }

  lemma HangsOffGrows(g: Targets, s0: Search, s: Search, root: Node, stack: seq<Frame>, v: Node)
    requires HangsOff(s0, s, root) && TreeMatches(g, s, stack)
    requires |stack| > 0 && stack[0].node == root
    ensures HangsOff(s0, WithPush(s, stack[|stack| - 1].node, v), root)
  {
    var u := stack[|stack| - 1].node;
    var s' := WithPush(s, u, v);
    forall n | n in s'.color && n !in s0.color ensures Reaches(s'.tree, root, n) {
      if n == v {
        StackIsTreePath(g, s, stack, 0, |stack| - 1);
        ReachesMono(s.tree, s'.tree, root, u);
        ReachesStep(s'.tree, root, u, v);
      } else {
        ReachesMono(s.tree, s'.tree, root, n);
      }
    }
  }

  lemma InitialFrame(g: Targets, s: Search, root: Node)
    requires Inv(g, s, []) && root !in s.color
    ensures Visiting(g, s, s.(color := s.color[root := ON_STACK]), root, [Frame(root, 0)])
  {
    var s' := s.(color := s.color[root := ON_STACK]);
    ReachesSelf(s'.tree, root);
    InitialColours(s, root);
  }

  lemma InitialColours(s: Search, root: Node)
    requires ColoursMatch(s, []) && root !in s.color
    ensures ColoursMatch(s.(color := s.color[root := ON_STACK]), [Frame(root, 0)])
  {
    var t := [Frame(root, 0)];
    assert t[0].node == root;
    forall n ensures !OnStack([], n) && (OnStack(t, n) <==> n == root) {}
  }

  /** What handing out target v does to the search. */
  ghost function Examine(g: Targets, s: Search, u: Node, v: Node): Search {
    if v !in g then s
    else if v !in s.color then WithPush(s, u, v)
    else if s.color[v] == ON_STACK then WithBack(s, u, v)
    else s
  }

  function NextStack(g: Targets, color: map<Node, int>, stack: seq<Frame>, v: Node): seq<Frame>
    requires |stack| > 0
  {
    if v in g && v !in color then Advance(stack) + [Frame(v, 0)] else Advance(stack)
  }

  lemma VisitingStep(g: Targets, s0: Search, s: Search, root: Node, stack: seq<Frame>, v: Node)
    requires Visiting(g, s0, s, root, stack) && NextTarget(g, stack, v)
    ensures var u := stack[|stack| - 1].node;
            Visiting(g, s0, Examine(g, s, u, v), root, NextStack(g, s.color, stack, v))
    ensures v in s.color ==> s.color[v] == ON_STACK || s.color[v] == DONE
    ensures v in g && v !in s.color ==> g.Keys - (s.color.Keys + {v}) < g.Keys - s.color.Keys
  {
    var u := stack[|stack| - 1].node;
    if v in g && v !in s.color {
      StepPush(g, s, stack, v);
      assert v in g.Keys - s.color.Keys;
      HangsOffGrows(g, s0, s, root, stack, v);
    } else if v in g && s.color[v] == ON_STACK {
      StepBack(g, s, stack, v);
    } else {
      StepSkip(g, s, stack, v);
    }
  }

  lemma TopInRange(g: Targets, s0: Search, s: Search, root: Node, stack: seq<Frame>)
    requires Visiting(g, s0, s, root, stack) && |stack| > 0
    ensures stack[|stack| - 1].next <= |Out(g, stack[|stack| - 1].node)|
  {
  }

  lemma VisitingDone(g: Targets, s0: Search, s: Search, root: Node)
    requires Visiting(g, s0, s, root, [])
    ensures Inv(g, s, []) && HangsOff(s0, s, root)
  {
  }

  lemma VisitingPop(g: Targets, s0: Search, s: Search, root: Node, stack: seq<Frame>)
    requires Visiting(g, s0, s, root, stack) && |stack| > 0
    requires var top := stack[|stack| - 1]; top.next == |Out(g, top.node)|
    ensures Visiting(g, s0, WithDone(s, stack[|stack| - 1].node), root, stack[..|stack| - 1])
    ensures stack[|stack| - 1].node in s.color
  {
    StepPop(g, s, stack);
    StackIsColoured(s, stack);
  }

  // ------------------------------------------------------------------ what a finished search gives

  lemma SettledForwardIsAcyclic(g: Targets, s: Search)
    requires Inv(g, s, []) && g.Keys <= s.color.Keys
    ensures Acyclic(Forward(g, s.back))
  {
    var inner := set u, v | u in g && v in g[u] && v in g && (u, v) !in s.back :: (u, v);
    forall n | n in g ensures n in s.finish {
      assert !OnStack([], n);
    }
    RankedIsAcyclic(inner, s.finish);
    forall p | IsPath(Forward(g, s.back), p) && |p| >= 2 ensures p[0] != p[|p| - 1] {
      if p[0] == p[|p| - 1] {
        forall i, j | 0 <= i && j == i + 1 && j < |p| ensures (p[i], p[j]) in inner {
          assert (p[i], p[j]) in Forward(g, s.back);
          if j < |p| - 1 {
            assert (p[j], p[j + 1]) in Forward(g, s.back);
          } else {
            assert (p[0], p[1]) in Forward(g, s.back);
          }
        }
        assert IsPath(inner, p);
      }
    }
  }

  /** Discovery-tree edges survive the removal of the back edges. */
  lemma TreeIsForward(g: Targets, s: Search, a: Node, b: Node)
    requires Inv(g, s, []) && Reaches(s.tree, a, b)
    ensures Reaches(Forward(g, s.back), a, b)
  {
    ReachesMono(s.tree, Forward(g, s.back), a, b);
  }

  /** The search tree keeps every node that the root reaches through nodes of the graph. */
  ghost predicate TreeSpans(g: Targets, s: Search, root: Node) {
    forall n :: n in g && Reaches(AllEdges(g), root, n) ==> Reaches(s.tree, root, n)
  }

  /** The first search from a node of the graph discovers, in its tree, everything reachable. */
  lemma FirstVisitSpans(g: Targets, s0: Search, s: Search, root: Node)
    requires Inv(g, s, []) && HangsOff(s0, s, root)
    requires s0.color.Keys !! g.Keys && root in g
    ensures TreeSpans(g, s, root)
  {
    forall n | n in g && Reaches(AllEdges(g), root, n) ensures Reaches(s.tree, root, n) {
      var p :| IsPathBetween(AllEdges(g), root, p, n);
      // nodes discovered so far, together with the dangling targets, are closed under edges
      var inside := (x: Node) => x !in g || x in s.color;
      forall a, b | (a, b) in AllEdges(g) && inside(a) ensures inside(b) {
        assert !OnStack([], a);
        assert a in s.finish;
      }
      ClosedKeepsPath(AllEdges(g), inside, p);
      assert inside(p[|p| - 1]);
    }
  }

  lemma VisitKeepsSpans(g: Targets, s0: Search, s: Search, visited: Node, root: Node)
    requires Inv(g, s, []) && HangsOff(s0, s, visited)
    ensures TreeSpans(g, s0, root) ==> TreeSpans(g, s, root)
    ensures s0.color.Keys !! g.Keys && visited in g ==> TreeSpans(g, s, visited)
    ensures visited !in g && s0.color.Keys == {} ==> s.color.Keys == {visited}
  {
    if TreeSpans(g, s0, root) {
      forall n | n in g && Reaches(AllEdges(g), root, n) ensures Reaches(s.tree, root, n) {
        ReachesMono(s0.tree, s.tree, root, n);
      }
    }
    if s0.color.Keys !! g.Keys && visited in g {
      FirstVisitSpans(g, s0, s, visited);
    }
    if visited !in g && s0.color.Keys == {} {
      forall n | n in s.color ensures n == visited {
        var p :| IsPathBetween(s.tree, visited, p, n);
        PathBegins(s.tree, p);
      }
    }
  }

  lemma EmptySearch(g: Targets)
    ensures Inv(g, Search(map[], {}, {}, map[]), [])
  {
  }

  lemma SpansMeansNothingLost(g: Targets, s: Search, root: Node)
    requires Inv(g, s, []) && TreeSpans(g, s, root) && root in g
    ensures forall n :: Reaches(AllEdges(g), root, n) ==> Reaches(Forward(g, s.back), root, n)
  {
    forall n | Reaches(AllEdges(g), root, n) ensures Reaches(Forward(g, s.back), root, n) {
      if n in g {
        TreeIsForward(g, s, root, n);
      } else {
        var p :| IsPathBetween(AllEdges(g), root, p, n);
        var m := p[|p| - 2];
        assert (m, n) in AllEdges(g);
        SubPath(AllEdges(g), p, 0, |p| - 2);
        assert Reaches(AllEdges(g), root, m);
        TreeIsForward(g, s, root, m);
        ReachesStep(Forward(g, s.back), root, m, n);
      }
    }
  }

  lemma SearchGivesBackEdgeSet(g: Targets, s: Search, root: Node)
    requires Inv(g, s, []) && g.Keys <= s.color.Keys
    requires root in g ==> TreeSpans(g, s, root)
    ensures IsBackEdgeSet(g, root, s.back)
  {
    SettledForwardIsAcyclic(g, s);
    forall u, v | (u, v) in s.back ensures Reaches(Forward(g, s.back), v, u) {
      TreeIsForward(g, s, v, u);
    }
    if root in g {
      SpansMeansNothingLost(g, s, root);
    }
  }

  /** There is something to report exactly when the graph has a cycle. */
  lemma BackEdgesIffCycles(g: Targets, root: Node, back: set<(Node, Node)>)
    requires IsBackEdgeSet(g, root, back)
    ensures back == {} <==> Acyclic(AllEdges(g))
  {
    if back == {} {
      assert Forward(g, back) == AllEdges(g);
    } else {
      var edge :| edge in back;
      var p := CycleThrough(g, root, back, edge.0, edge.1);
    }
  }

  /** A reported edge lies on a cycle whose other edges all stay. */
  lemma CycleThrough(g: Targets, root: Node, back: set<(Node, Node)>, u: Node, v: Node) returns (cycle: seq<Node>)
    requires IsBackEdgeSet(g, root, back) && (u, v) in back
    ensures |cycle| >= 2 && IsPathBetween(AllEdges(g), u, cycle, u) && cycle[1] == v
    ensures IsPath(Forward(g, back), cycle[1..])
  {
    var q :| IsPathBetween(Forward(g, back), v, q, u);
    assert IsPathBetween(AllEdges(g), v, q, u);
    assert IsPath(AllEdges(g), [u, v]);
    PathConcat(AllEdges(g), [u, v], q);
    cycle := [u, v] + q[1..];
    assert cycle[1..] == q;
  }

  // ------------------------------------------------------------------ the code

  /** The variables that the nested function `visit` shares with `_back_edges`. */
  class LoopFinder {
    const edges: Targets
    var color: map<Node, int>
    var back: set<(Node, Node)>
    ghost var tree: set<(Node, Node)>
    ghost var finish: map<Node, nat>

    ghost function State(): Search
      reads this
    {
      Search(color, back, tree, finish)
    }

    constructor (edges: Targets)
      ensures this.edges == edges
      ensures State() == Search(map[], {}, {}, map[])
    {
      this.edges := edges;
      color, back, tree, finish := map[], {}, {}, map[];
    }

    /** One depth-first search from an undiscovered root. */
    method Visit(root: Node)
      requires Inv(edges, State(), []) && root !in color
      modifies this
      ensures Inv(edges, State(), [])
      ensures HangsOff(old(State()), State(), root)
    {
      hide Visiting, Inv;
      ghost var s0, s := State(), State().(color := color[root := ON_STACK]);
      var stack := [Frame(root, 0)];
      color := color[root := ON_STACK];
      InitialFrame(edges, s0, root);
      while |stack| > 0
        invariant s == State() && Visiting(edges, s0, s, root, stack)
        decreases edges.Keys - s.color.Keys, |stack|
      {
        var node := stack[|stack| - 1].node;
        var targets := Out(edges, node);
        var advanced := false;
        TopInRange(edges, s0, s, root, stack);
        ghost var undiscovered, height := edges.Keys - s.color.Keys, |stack|;
        while !advanced && stack[|stack| - 1].next < |targets|
          invariant s == State() && Visiting(edges, s0, s, root, stack) && |stack| > 0
          invariant !advanced ==> stack[|stack| - 1].node == node && |stack| == height
          invariant !advanced ==> stack[|stack| - 1].next <= |targets|
          invariant if advanced then edges.Keys - s.color.Keys < undiscovered else edges.Keys - s.color.Keys == undiscovered
          decreases !advanced, |targets| - stack[|stack| - 1].next
        {
          var target := targets[stack[|stack| - 1].next];
          VisitingStep(edges, s0, s, root, stack, target);
          s := Examine(edges, s, node, target);
          var state := if target in color then color[target] else 0;
          stack := Advance(stack);
          if target in edges {
            if state == ON_STACK {
              back := back + {(node, target)};
            } else if state == 0 {
              color := color[target := ON_STACK];
              tree := tree + {(node, target)};
              stack := stack + [Frame(target, 0)];
              advanced := true;
            }
          }
        }
        if !advanced {
          VisitingPop(edges, s0, s, root, stack);
          s := WithDone(s, node);
          finish := finish[node := |finish|];
          color := color[node := DONE];
          stack := stack[..|stack| - 1];
        }
      }
      VisitingDone(edges, s0, s, root);
    }
  }

  /** The node a drawing starts from: the given start, or the first node when there is no such node. */
  function Root(names: seq<Node>, edges: Targets, start: Node): Node {
    if start in edges then start else if names != [] then names[0] else ""
  }

  method FindBackEdges(names: seq<Node>, edges: Targets, start: Node) returns (back: set<(Node, Node)>)
    requires forall n :: n in edges <==> n in names
    ensures IsBackEdgeSet(edges, Root(names, edges, start), back)
  {
    hide Inv, TreeSpans;
    var finder := new LoopFinder(edges);
    var order := [start];
    assert names != [] && start !in edges ==> names[0] != start by {
      if names != [] { assert names[0] in names; }
    }
    for i := 0 to |names|
      invariant |order| > 0 && order[0] == start && (i == 0 ==> |order| == 1)
      invariant forall n :: n in order <==> n == start || n in names[..i]
      invariant start !in edges && i > 0 ==> |order| > 1 && order[1] == names[0]
    {
      if names[i] != start {
        order := order + [names[i]];
      }
    }
    ghost var root := Root(names, edges, start);
    ghost var first := if start in edges then 0 else 1;
    EmptySearch(edges);
    for i := 0 to |order|
      invariant finder.edges == edges && fresh(finder)
      invariant Inv(edges, finder.State(), [])
      invariant forall k :: 0 <= k < i ==> order[k] in finder.color
      invariant i <= first ==> forall n :: n in finder.color ==> n == start && i == 1
      invariant i > first && root in edges ==> TreeSpans(edges, finder.State(), root)
    {
      if order[i] !in finder.color {
        ghost var before := finder.State();
        finder.Visit(order[i]);
        VisitKeepsSpans(edges, before, finder.State(), order[i], root);
      }
    }
    forall n | n in edges ensures n in finder.color {
      assert n in order;
    }
    SearchGivesBackEdgeSet(edges, finder.State(), root);
    back := finder.back;
  }
}
