/**
 Rows of a workflow diagram: the longest path from the start over the forward edges,
 by relaxation in at most one pass per node (render.py, `_assign_depths`).
 */
module Depths {
  import opened Graphs
  import opened BackEdges

  ghost predicate HasPathOf(e: set<(Node, Node)>, root: Node, n: Node, length: nat) {
    exists p :: IsPathBetween(e, root, p, n) && |p| - 1 == length
  }

  /** The longest path from the root to n has exactly `length` edges. */
  ghost predicate IsLongest(e: set<(Node, Node)>, root: Node, n: Node, length: nat) {
    && HasPathOf(e, root, n, length)
    && forall p :: IsPathBetween(e, root, p, n) ==> |p| - 1 <= length
  }

  /** Every depth is the length of some path. */
  ghost predicate Attained(e: set<(Node, Node)>, root: Node, depth: map<Node, nat>) {
    forall n :: n in depth ==> HasPathOf(e, root, n, depth[n])
  }

  /** Every path with at most `bound` edges is accounted for. */
  ghost predicate Covers(e: set<(Node, Node)>, root: Node, depth: map<Node, nat>, bound: nat) {
    forall p :: IsPath(e, p) && p[0] == root && |p| - 1 <= bound ==>
      p[|p| - 1] in depth && |p| - 1 <= depth[p[|p| - 1]]
  }

  ghost predicate CoversAll(e: set<(Node, Node)>, root: Node, depth: map<Node, nat>) {
    forall p :: IsPath(e, p) && p[0] == root ==> p[|p| - 1] in depth && |p| - 1 <= depth[p[|p| - 1]]
  }

  ghost predicate Grew(old_: map<Node, nat>, new_: map<Node, nat>) {
    forall n :: n in old_ ==> n in new_ && old_[n] <= new_[n]
  }

  /** Every edge out of src leads at least one row below where src was. */
  ghost predicate Relaxed(targets: seq<Node>, row: nat, depth: map<Node, nat>) {
    forall t :: t in targets ==> t in depth && row + 1 <= depth[t]
  }

  /** The nodes that the root reaches. */
  ghost function ReachSet(e: set<(Node, Node)>, root: Node): set<Node> {
    set n | n in {root} + (set edge | edge in e :: edge.1) && Reaches(e, root, n)
  }

  /** How many different names outside `reached` occur among the first k. */
  ghost function Parked(names: seq<Node>, reached: set<Node>, k: nat): nat
    requires k <= |names|
  {
    if k == 0 then 0
    else Parked(names, reached, k - 1) + if IsParked(names, reached, k - 1) then 1 else 0
  }

  /** names[i] is the first occurrence of a name outside `reached`. */
  ghost predicate IsParked(names: seq<Node>, reached: set<Node>, i: nat)
    requires i < |names|
  {
    names[i] !in reached && names[i] !in names[..i]
  }

  /** The names outside `reached` have the rows from `bottom` down, one each, in order of appearance. */
  ghost predicate ParkedBelow(names: seq<Node>, reached: set<Node>, bottom: nat, depth: map<Node, nat>) {
    ParkedUpTo(names, reached, bottom, depth, |names|)
  }

  ghost predicate ParkedUpTo(names: seq<Node>, reached: set<Node>, bottom: nat, depth: map<Node, nat>, k: nat)
    requires k <= |names|
  {
    forall i :: 0 <= i < k && IsParked(names, reached, i) ==>
      names[i] in depth && depth[names[i]] == bottom + Parked(names, reached, i)
  }

  /** One more than the deepest row of a reachable node. */
  ghost predicate IsFloor(reached: set<Node>, depth: map<Node, nat>, floor: nat) {
    && (forall n :: n in reached ==> n in depth && depth[n] < floor)
    && (exists n :: n in reached && n in depth && depth[n] + 1 == floor)
  }

  /** What `_assign_depths` promises about the rows. */
  ghost predicate IsLayering(e: set<(Node, Node)>, root: Node, names: seq<Node>, depth: map<Node, nat>) {
    var reached := ReachSet(e, root);
    && (forall n :: n in depth <==> n in names || n in reached)
    && (forall n :: n in reached ==> IsLongest(e, root, n, depth[n]))
    && exists floor: nat :: IsFloor(reached, depth, floor) && ParkedBelow(names, reached, floor, depth)
  }

  lemma InReachSet(e: set<(Node, Node)>, root: Node, n: Node)
    ensures n in ReachSet(e, root) <==> Reaches(e, root, n)
  {
    if Reaches(e, root, n) {
      var p :| IsPathBetween(e, root, p, n);
      if |p| > 1 {
        assert (p[|p| - 2], n) in e && (p[|p| - 2], n).1 == n;
      }
    }
  }

  lemma {:induction false} ParkedGrows(names: seq<Node>, reached: set<Node>, i: nat, j: nat)
    requires i < j <= |names| && IsParked(names, reached, i)
    ensures Parked(names, reached, i) < Parked(names, reached, j)
  {
    if i + 1 < j {
      ParkedGrows(names, reached, i, j - 1);
    }
  }

  lemma {:induction false} FirstOccurrence(names: seq<Node>, n: Node) returns (i: nat)
    requires n in names
    ensures i < |names| && names[i] == n && n !in names[..i]
  {
    if names[0] == n {
      i := 0;
    } else {
      var k := FirstOccurrence(names[1..], n);
      i := k + 1;
      assert names[..i] == [names[0]] + names[1..][..k];
    }
  }

  /** A node that the root does not reach has a row of its own, below every reachable node. */
  lemma UnreachableApart(e: set<(Node, Node)>, root: Node, names: seq<Node>, depth: map<Node, nat>, u: Node, n: Node)
    requires IsLayering(e, root, names, depth)
    requires u in names && !Reaches(e, root, u) && n != u && (n in names || Reaches(e, root, n))
    ensures u in depth && n in depth && depth[u] != depth[n]
    ensures Reaches(e, root, n) ==> depth[n] < depth[u]
  {
    var reached := ReachSet(e, root);
    InReachSet(e, root, u);
    InReachSet(e, root, n);
    var floor: nat :| IsFloor(reached, depth, floor) && ParkedBelow(names, reached, floor, depth);
    var i := FirstOccurrence(names, u);
    assert IsParked(names, reached, i);
    if n !in reached {
      var j := FirstOccurrence(names, n);
      assert IsParked(names, reached, j);
      if i < j {
        ParkedGrows(names, reached, i, j);
      } else {
        ParkedGrows(names, reached, j, i);
      }
    }
  }

  lemma RootIsOnTop(e: set<(Node, Node)>, root: Node, names: seq<Node>, depth: map<Node, nat>)
    requires Acyclic(e) && IsLayering(e, root, names, depth)
    ensures root in depth && depth[root] == 0
  {
    ReachesSelf(e, root);
    InReachSet(e, root, root);
    assert HasPathOf(e, root, root, depth[root]);
  }

  // ------------------------------------------------------------------ convergence

  /** One full pass extends the paths accounted for by one edge. */
  lemma PassExtends(e: set<(Node, Node)>, root: Node, before: map<Node, nat>, after: map<Node, nat>, bound: nat)
    requires Covers(e, root, before, bound) && Grew(before, after)
    requires forall u, v :: (u, v) in e && u in before ==> v in after && before[u] + 1 <= after[v]
    ensures Covers(e, root, after, bound + 1)
  {
    forall p | IsPath(e, p) && p[0] == root && |p| - 1 <= bound + 1
      ensures p[|p| - 1] in after && |p| - 1 <= after[p[|p| - 1]]
    {
      if |p| > 1 {
        SubPath(e, p, 0, |p| - 2);
        assert p[0..|p| - 1][0] == root;
        assert (p[|p| - 2], p[|p| - 1]) in e;
      }
    }
  }

  /** A pass without changes means every path is accounted for. */
  lemma {:induction false} FixpointCoversAll(e: set<(Node, Node)>, root: Node, depth: map<Node, nat>)
    requires root in depth
    requires forall u, v :: (u, v) in e && u in depth ==> v in depth && depth[u] + 1 <= depth[v]
    ensures CoversAll(e, root, depth)
  {
    forall p | IsPath(e, p) && p[0] == root
      ensures p[|p| - 1] in depth && |p| - 1 <= depth[p[|p| - 1]]
    {
      var k := 0;
      while k < |p| - 1
        invariant 0 <= k < |p| && p[k] in depth && k <= depth[p[k]]
      {
        assert (p[k], p[k + 1]) in e;
        k := k + 1;
      }
    }
  }

  /** As many passes as there are nodes are always enough. */
  lemma EnoughPasses(g: Targets, e: set<(Node, Node)>, root: Node, depth: map<Node, nat>, passes: nat)
    requires Acyclic(e) && e <= AllEdges(g) && |g.Keys| <= passes
    requires Covers(e, root, depth, passes)
    ensures CoversAll(e, root, depth)
  {
    forall p | IsPath(e, p) && p[0] == root
      ensures p[|p| - 1] in depth && |p| - 1 <= depth[p[|p| - 1]]
    {
      AcyclicPathBound(e, g.Keys, p);
    }
  }

  lemma {:induction false} KeysFitNames(names: seq<Node>, pool: set<Node>)
    requires forall n :: n in pool ==> n in names
    ensures |pool| <= |names|
  {
    if |names| > 0 {
      var last := names[|names| - 1];
      KeysFitNames(names[..|names| - 1], pool - {last});
    } else {
      assert pool == {};
    }
  }

  lemma AttainedStep(e: set<(Node, Node)>, root: Node, depth: map<Node, nat>, u: Node, v: Node)
    requires Attained(e, root, depth) && u in depth && (u, v) in e
    ensures Attained(e, root, depth[v := depth[u] + 1])
  {
    assert HasPathOf(e, root, u, depth[u]);
    var p :| IsPathBetween(e, root, p, u) && |p| - 1 == depth[u];
    assert IsPath(e, [u, v]);
    PathConcat(e, p, [u, v]);
    assert IsPathBetween(e, root, p + [u, v][1..], v);
  }

  /** Attained and complete depths are the longest paths, and they exist exactly for reachable nodes. */
  lemma CompleteMeansLongest(e: set<(Node, Node)>, root: Node, depth: map<Node, nat>)
    requires Attained(e, root, depth) && CoversAll(e, root, depth)
    ensures forall n :: n in depth <==> Reaches(e, root, n)
    ensures forall n :: n in depth ==> IsLongest(e, root, n, depth[n])
  {
  }

  // ------------------------------------------------------------------ the code

  /** The forward transitions of node n. */
  function KeepForward(n: Node, targets: seq<Node>, back: set<(Node, Node)>): (kept: seq<Node>)
    ensures forall t :: t in kept <==> t in targets && (n, t) !in back
  {
    if targets == [] then []
    else (if (n, targets[0]) in back then [] else [targets[0]]) + KeepForward(n, targets[1..], back)
  }

  /** One more than the largest depth, or 0 if there is none. */
  function Bottom(order: seq<Node>, depth: map<Node, nat>): (bottom: nat)
    requires forall n :: n in order ==> n in depth
    ensures forall n :: n in order ==> depth[n] < bottom
    ensures bottom == 0 || exists n :: n in order && depth[n] == bottom - 1
  {
    if order == [] then 0
    else
      var rest := Bottom(order[1..], depth);
      assert order == [order[0]] + order[1..];
      if depth[order[0]] < rest then rest else depth[order[0]] + 1
  }

  /** The dictionary `forward` holds exactly the edges e. */
  ghost predicate Lists(forward: Targets, e: set<(Node, Node)>) {
    forall u, v :: (u, v) in e <==> u in forward && v in forward[u]
  }

  /** The dictionary's keys, in some order. */
  ghost predicate Keys(order: seq<Node>, depth: map<Node, nat>) {
    forall n :: n in order <==> n in depth
  }

  lemma OnlyTheRoot(e: set<(Node, Node)>, root: Node)
    requires Acyclic(e)
    ensures Attained(e, root, map[root := 0]) && Covers(e, root, map[root := 0], 0) && Keys([root], map[root := 0])
  {
  }

  /** The first i sources of a pass have been relaxed. */
  ghost predicate Passing(forward: Targets, snapshot: seq<Node>, before: map<Node, nat>, depth: map<Node, nat>, i: nat)
    requires i <= |snapshot|
  {
    && Grew(before, depth)
    && forall k :: 0 <= k < i ==> snapshot[k] in before && Relaxed(Out(forward, snapshot[k]), before[snapshot[k]], depth)
  }

  /** A complete pass relaxes every edge out of a node that had a row. */
  lemma PassRelaxesAll(e: set<(Node, Node)>, forward: Targets, snapshot: seq<Node>, before: map<Node, nat>, depth: map<Node, nat>)
    requires Passing(forward, snapshot, before, depth, |snapshot|)
    requires forall n :: n in snapshot <==> n in before
    requires Lists(forward, e)
    ensures forall u, v :: (u, v) in e && u in before ==> v in depth && before[u] + 1 <= depth[v]
  {
  }

  /** Everything known while the j-th edge of the i-th source of a pass is looked at. */
  ghost predicate Scanning(e: set<(Node, Node)>, root: Node, forward: Targets, snapshot: seq<Node>, before: map<Node, nat>,
                           order: seq<Node>, depth: map<Node, nat>, i: nat, j: nat)
    requires i < |snapshot| && j <= |Out(forward, snapshot[i])|
  {
    && BetweenSources(e, root, forward, snapshot, before, order, depth, i)
    && snapshot[i] in before && snapshot[i] in depth
    && before[snapshot[i]] <= depth[snapshot[i]]
    && Relaxed(Out(forward, snapshot[i])[..j], before[snapshot[i]], depth)
  }

  ghost predicate BetweenSources(e: set<(Node, Node)>, root: Node, forward: Targets, snapshot: seq<Node>, before: map<Node, nat>,
                                 order: seq<Node>, depth: map<Node, nat>, i: nat)
    requires i <= |snapshot|
  {
    && Keys(order, depth) && Keys(snapshot, before)
    && Attained(e, root, depth) && Passing(forward, snapshot, before, depth, i)
  }

  lemma StartSource(e: set<(Node, Node)>, root: Node, forward: Targets, snapshot: seq<Node>, before: map<Node, nat>,
                    order: seq<Node>, depth: map<Node, nat>, i: nat)
    requires i < |snapshot| && BetweenSources(e, root, forward, snapshot, before, order, depth, i)
    ensures Scanning(e, root, forward, snapshot, before, order, depth, i, 0)
  {
  }

  lemma FinishSource(e: set<(Node, Node)>, root: Node, forward: Targets, snapshot: seq<Node>, before: map<Node, nat>,
                     order: seq<Node>, depth: map<Node, nat>, i: nat)
    requires i < |snapshot| && Scanning(e, root, forward, snapshot, before, order, depth, i, |Out(forward, snapshot[i])|)
    ensures BetweenSources(e, root, forward, snapshot, before, order, depth, i + 1)
  {
  }

  /** Moving a node down keeps what has been relaxed. */
  lemma MovedDown(forward: Targets, snapshot: seq<Node>, before: map<Node, nat>, depth: map<Node, nat>, i: nat, n: Node, row: nat)
    requires i <= |snapshot| && Passing(forward, snapshot, before, depth, i) && (n in depth ==> depth[n] < row)
    ensures Passing(forward, snapshot, before, depth[n := row], i)
  {
    forall k | 0 <= k < i ensures Relaxed(Out(forward, snapshot[k]), before[snapshot[k]], depth[n := row]) {
      assert Relaxed(Out(forward, snapshot[k]), before[snapshot[k]], depth);
    }
  }

  /** One more target of a source is low enough. */
  lemma OneMoreRelaxed(targets: seq<Node>, j: nat, row: nat, depth: map<Node, nat>, lower: map<Node, nat>)
    requires j < |targets| && Relaxed(targets[..j], row, depth) && Grew(depth, lower)
    requires targets[j] in lower && row + 1 <= lower[targets[j]]
    ensures Relaxed(targets[..j + 1], row, lower)
  {
    assert targets[..j + 1] == targets[..j] + [targets[j]];
  }

  /** The edge's target is already low enough, or is moved down. */
  lemma ScanStep(e: set<(Node, Node)>, root: Node, forward: Targets, snapshot: seq<Node>, before: map<Node, nat>,
                 order: seq<Node>, depth: map<Node, nat>, i: nat, j: nat)
    requires i < |snapshot| && j < |Out(forward, snapshot[i])|
    requires Scanning(e, root, forward, snapshot, before, order, depth, i, j) && Lists(forward, e)
    ensures snapshot[i] in depth
    ensures var (src, target) := (snapshot[i], Out(forward, snapshot[i])[j]);
            var nd := depth[src] + 1;
            if target !in depth || depth[target] < nd then
              Scanning(e, root, forward, snapshot, before, if target in depth then order else order + [target],
                       depth[target := nd], i, j + 1)
            else
              Scanning(e, root, forward, snapshot, before, order, depth, i, j + 1)
  {
    hide Attained, Passing, Relaxed, Grew, Lists;
    var (src, target) := (snapshot[i], Out(forward, snapshot[i])[j]);
    var nd := depth[src] + 1;
    EdgeIsListed(forward, e, src, j);
    if target !in depth || depth[target] < nd {
      AttainedStep(e, root, depth, src, target);
      GrewBy(depth, target, nd);
      MovedDown(forward, snapshot, before, depth, i, target, nd);
      OneMoreRelaxed(Out(forward, src), j, before[src], depth, depth[target := nd]);
    } else {
      GrewBy(depth, target, depth[target]);
      OneMoreRelaxed(Out(forward, src), j, before[src], depth, depth);
    }
  }

  lemma EdgeIsListed(forward: Targets, e: set<(Node, Node)>, src: Node, j: nat)
    requires Lists(forward, e) && j < |Out(forward, src)|
    ensures (src, Out(forward, src)[j]) in e
  {
  }

  lemma GrewBy(depth: map<Node, nat>, n: Node, row: nat)
    requires n in depth ==> depth[n] <= row
    ensures Grew(depth, depth) && Grew(depth, depth[n := row])
  {
  }

  /** The relaxation: `order` is the insertion order of the dictionary `depth`. */
  method Relax(names: seq<Node>, edges: Targets, forward: Targets, root: Node, ghost e: set<(Node, Node)>)
    returns (order: seq<Node>, depth: map<Node, nat>)
    requires forall n :: n in edges ==> n in names
    requires e <= AllEdges(edges) && Acyclic(e)
    requires Lists(forward, e)
    ensures Keys(order, depth)
    ensures Attained(e, root, depth) && CoversAll(e, root, depth)
  {
    hide Attained, Covers, CoversAll, Acyclic, AllEdges, Lists, Keys, BetweenSources, Scanning;
    order, depth := [root], map[root := 0];
    OnlyTheRoot(e, root);
    ghost var settled := false;
    for pass := 0 to |names|
      invariant Keys(order, depth) && Attained(e, root, depth) && Covers(e, root, depth, pass)
      invariant root in depth && !settled
    {
      var changed := false;
      var snapshot := order;
      ghost var before := depth;
      StartPass(e, root, forward, order, depth);
      for i := 0 to |snapshot|
        invariant BetweenSources(e, root, forward, snapshot, before, order, depth, i)
        invariant !changed ==> depth == before
      {
        var src := snapshot[i];
        var targets := Out(forward, src);
        StartSource(e, root, forward, snapshot, before, order, depth, i);
        for j := 0 to |targets|
          invariant Scanning(e, root, forward, snapshot, before, order, depth, i, j)
          invariant !changed ==> depth == before
        {
          ScanStep(e, root, forward, snapshot, before, order, depth, i, j);
          var target := targets[j];
          var nd := depth[src] + 1;
          if target !in depth || depth[target] < nd {
            order := if target in depth then order else order + [target];
            depth := depth[target := nd];
            changed := true;
          }
        }
        FinishSource(e, root, forward, snapshot, before, order, depth, i);
      }
      FullPass(e, root, forward, snapshot, before, order, depth, pass);
      if !changed {
        FixpointCoversAll(e, root, depth);
        settled := true;
        break;
      }
    }
    if !settled {
      KeysFitNames(names, edges.Keys);
      EnoughPasses(edges, e, root, depth, |names|);
    }
  }

  lemma StartPass(e: set<(Node, Node)>, root: Node, forward: Targets, order: seq<Node>, depth: map<Node, nat>)
    requires Keys(order, depth) && Attained(e, root, depth)
    ensures BetweenSources(e, root, forward, order, depth, order, depth, 0)
  {
  }

  lemma FullPass(e: set<(Node, Node)>, root: Node, forward: Targets, snapshot: seq<Node>, before: map<Node, nat>,
                 order: seq<Node>, depth: map<Node, nat>, bound: nat)
    requires Covers(e, root, before, bound) && Lists(forward, e) && root in before
    requires BetweenSources(e, root, forward, snapshot, before, order, depth, |snapshot|)
    ensures Covers(e, root, depth, bound + 1) && root in depth
    ensures Keys(order, depth) && Attained(e, root, depth)
    ensures forall u, v :: (u, v) in e && u in before ==> v in depth && before[u] + 1 <= depth[v]
  {
    PassRelaxesAll(e, forward, snapshot, before, depth);
    PassExtends(e, root, before, depth, bound);
  }

  /** Rows for the names that have none yet. */
  method Park(names: seq<Node>, reached: map<Node, nat>, bottom: nat) returns (depth: map<Node, nat>)
    ensures forall n :: n in depth <==> n in reached || n in names
    ensures forall n :: n in reached ==> depth[n] == reached[n]
    ensures ParkedBelow(names, reached.Keys, bottom, depth)
  {
    hide ParkedUpTo, Parked, IsParked;
    depth := reached;
    var next := bottom;
    NothingParked(names, reached.Keys, bottom, depth);
    for i := 0 to |names|
      invariant depth.Keys == reached.Keys + Elements(names[..i])
      invariant forall n :: n in reached ==> depth[n] == reached[n]
      invariant next == bottom + Parked(names, reached.Keys, i)
      invariant ParkedUpTo(names, reached.Keys, bottom, depth, i)
    {
      ParkOne(names, reached.Keys, bottom, depth, i);
      if names[i] !in depth {
        depth := depth[names[i] := next];
        next := next + 1;
      }
    }
    assert names[..|names|] == names;
  }

  function Elements(names: seq<Node>): set<Node> {
    set n | n in names
  }

  lemma NothingParked(names: seq<Node>, reached: set<Node>, bottom: nat, depth: map<Node, nat>)
    ensures ParkedUpTo(names, reached, bottom, depth, 0) && Parked(names, reached, 0) == 0
    ensures Elements(names[..0]) == {}
  {
  }

  lemma ParkOne(names: seq<Node>, reached: set<Node>, bottom: nat, depth: map<Node, nat>, i: nat)
    requires i < |names| && depth.Keys == reached + Elements(names[..i])
    requires ParkedUpTo(names, reached, bottom, depth, i)
    ensures Elements(names[..i + 1]) == Elements(names[..i]) + {names[i]}
    ensures names[i] in depth ==>
              Parked(names, reached, i + 1) == Parked(names, reached, i) && ParkedUpTo(names, reached, bottom, depth, i + 1)
    ensures names[i] !in depth ==>
              && Parked(names, reached, i + 1) == Parked(names, reached, i) + 1
              && ParkedUpTo(names, reached, bottom, depth[names[i] := bottom + Parked(names, reached, i)], i + 1)
  {
  }

  method AssignDepths(names: seq<Node>, edges: Targets, start: Node)
    returns (depth: map<Node, nat>, ghost back: set<(Node, Node)>)
    requires forall n :: n in edges <==> n in names
    requires "" !in names
    ensures IsBackEdgeSet(edges, Root(names, edges, start), back)
    ensures names == [] ==> depth == map[]
    ensures names != [] ==> IsLayering(Forward(edges, back), Root(names, edges, start), names, depth)
  {
    var loops := FindBackEdges(names, edges, start);
    back := loops;
    var forward := map n | n in edges :: KeepForward(n, edges[n], loops);
    var root := if start in forward then start else if names != [] then names[0] else "";
    assert names == [] ==> edges.Keys == {};
    assert names != [] ==> names[0] in names;
    if root == "" {
      depth := map[];
      return;
    }
    ghost var e := Forward(edges, back);
    var order, reached := Relax(names, edges, forward, root, e);
    var bottom := Bottom(order, reached);
    depth := Park(names, reached, bottom);
    LayeringIsComplete(e, root, names, reached, bottom, depth);
  }

  lemma LayeringIsComplete(e: set<(Node, Node)>, root: Node, names: seq<Node>, reached: map<Node, nat>,
                           bottom: nat, depth: map<Node, nat>)
    requires Attained(e, root, reached) && CoversAll(e, root, reached)
    requires forall n :: n in depth <==> n in reached || n in names
    requires forall n :: n in reached ==> depth[n] == reached[n]
    requires forall n :: n in reached ==> reached[n] < bottom
    requires bottom == 0 || exists n :: n in reached && reached[n] == bottom - 1
    requires ParkedBelow(names, reached.Keys, bottom, depth)
    ensures IsLayering(e, root, names, depth)
  {
    CompleteMeansLongest(e, root, reached);
    ReachesSelf(e, root);
    forall n ensures n in reached <==> n in ReachSet(e, root) {
      InReachSet(e, root, n);
    }
    assert reached.Keys == ReachSet(e, root);
    assert root in reached;
    assert IsFloor(reached.Keys, depth, bottom);
  }
}
