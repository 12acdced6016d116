/**
 First-fit packing of workflow runs into display lanes
 (workflows-page.ts, `organizeIntoLanes`).
 */
module Lanes {
  import opened Sorting

  /** A run and the time it was created at, in milliseconds. */
  datatype Run = Run(id: string, createdAt: int)

  type Lane = seq<Run>

  /** Every run counts as lasting one minute. */
  const RUN_LENGTH := 60000

  predicate NotLater(a: Run, b: Run) {
    a.createdAt <= b.createdAt
  }

  /** The closed intervals of the two runs have a point in common. */
  predicate Overlap(a: Run, b: Run) {
    a.createdAt <= b.createdAt + RUN_LENGTH && b.createdAt <= a.createdAt + RUN_LENGTH
  }

  ghost predicate NoOverlap(lane: Lane) {
    forall i, j :: 0 <= i < j < |lane| ==> !Overlap(lane[i], lane[j])
  }

  function Flatten(lanes: seq<Lane>): seq<Run> {
    if lanes == [] then [] else lanes[0] + Flatten(lanes[1..])
  }

  /** Any way of showing all the runs, each once, without overlap inside a lane. */
  ghost predicate IsArrangement(runs: seq<Run>, lanes: seq<Lane>) {
    && multiset(Flatten(lanes)) == multiset(runs)
    && forall k :: 0 <= k < |lanes| ==> NoOverlap(lanes[k])
  }

  /** Some of the runs, any two of which overlap. */
  ghost predicate IsClique(runs: seq<Run>, clique: multiset<Run>) {
    && clique <= multiset(runs)
    && forall a, b :: a in clique && b in clique ==> Overlap(a, b)
  }

  // ------------------------------------------------------------------ the packing as a function

  function Last(lane: Lane): Run
    requires lane != []
  {
    lane[|lane| - 1]
  }

  predicate Fits(lane: Lane, run: Run)
    requires lane != []
  {
    run.createdAt > Last(lane).createdAt + RUN_LENGTH
  }

  ghost predicate AllUsed(lanes: seq<Lane>) {
    forall k :: 0 <= k < |lanes| ==> lanes[k] != []
  }

  /** The run goes to the end of the first lane it fits into, or into a new one. */
  function Place(lanes: seq<Lane>, run: Run): (placed: seq<Lane>)
    requires AllUsed(lanes)
    ensures AllUsed(placed)
  {
    if lanes == [] then [[run]]
    else if Fits(lanes[0], run) then [lanes[0] + [run]] + lanes[1..]
    else [lanes[0]] + Place(lanes[1..], run)
  }

  function PlaceAll(runs: seq<Run>): (lanes: seq<Lane>)
    ensures AllUsed(lanes)
  {
    if runs == [] then [] else Place(PlaceAll(runs[..|runs| - 1]), runs[|runs| - 1])
  }

  // ------------------------------------------------------------------ every run once, no overlap

  /** Runs of a lane are in order and more than a run's length apart. */
  ghost predicate Spaced(lane: Lane) {
    forall i, j :: 0 <= i < j < |lane| ==> lane[i].createdAt + RUN_LENGTH < lane[j].createdAt
  }

  lemma {:induction false} PlaceKeepsRuns(lanes: seq<Lane>, run: Run)
    requires AllUsed(lanes)
    ensures multiset(Flatten(Place(lanes, run))) == multiset(Flatten(lanes)) + multiset{run}
  {
    if lanes != [] {
      PlaceKeepsRuns(lanes[1..], run);
      if Fits(lanes[0], run) {
        assert ([lanes[0] + [run]] + lanes[1..])[1..] == lanes[1..];
      } else {
        assert ([lanes[0]] + Place(lanes[1..], run))[1..] == Place(lanes[1..], run);
      }
    }
  }

  lemma {:induction false} PlaceKeepsSpacing(lanes: seq<Lane>, run: Run)
    requires AllUsed(lanes) && forall k :: 0 <= k < |lanes| ==> Spaced(lanes[k])
    ensures forall k :: 0 <= k < |Place(lanes, run)| ==> Spaced(Place(lanes, run)[k])
  {
    if lanes != [] && !Fits(lanes[0], run) {
      PlaceKeepsSpacing(lanes[1..], run);
    }
  }

  lemma {:induction false} PlaceAllArranges(runs: seq<Run>)
    ensures multiset(Flatten(PlaceAll(runs))) == multiset(runs)
    ensures forall k :: 0 <= k < |PlaceAll(runs)| ==> Spaced(PlaceAll(runs)[k])
  {
    if runs != [] {
      var (front, run) := (runs[..|runs| - 1], runs[|runs| - 1]);
      PlaceAllArranges(front);
      PlaceKeepsRuns(PlaceAll(front), run);
      PlaceKeepsSpacing(PlaceAll(front), run);
      assert runs == front + [run];
    }
  }

  // ------------------------------------------------------------------ as few lanes as possible

  function Lasts(lanes: seq<Lane>): seq<Run>
    requires AllUsed(lanes)
  {
    if lanes == [] then [] else [Last(lanes[0])] + Lasts(lanes[1..])
  }

  lemma {:induction false} LastsAreRuns(lanes: seq<Lane>)
    requires AllUsed(lanes)
    ensures multiset(Lasts(lanes)) <= multiset(Flatten(lanes)) && |Lasts(lanes)| == |lanes|
  {
    if lanes != [] {
      LastsAreRuns(lanes[1..]);
      assert lanes[0] == lanes[0][..|lanes[0]| - 1] + [Last(lanes[0])];
    }
  }

  /** A run that opens a lane comes at most a run's length after the last run of every lane. */
  lemma {:induction false} NewLaneOnlyIfAllBusy(lanes: seq<Lane>, run: Run)
    requires AllUsed(lanes)
    ensures |Place(lanes, run)| == |lanes| || |Place(lanes, run)| == |lanes| + 1
    ensures |Place(lanes, run)| == |lanes| + 1 ==>
              forall last :: last in Lasts(lanes) ==> run.createdAt <= last.createdAt + RUN_LENGTH
  {
    if lanes != [] && !Fits(lanes[0], run) {
      NewLaneOnlyIfAllBusy(lanes[1..], run);
    }
  }

  /** Runs within one run's length before the new one overlap each other and the new run. */
  lemma RecentRunsOverlap(runs: seq<Run>, recent: seq<Run>, run: Run)
    requires multiset(recent) <= multiset(runs)
    requires forall a :: a in runs ==> a.createdAt <= run.createdAt
    requires forall a :: a in recent ==> run.createdAt <= a.createdAt + RUN_LENGTH
    ensures IsClique(runs + [run], multiset(recent) + multiset{run})
  {
  }

  /** First fit on runs in order of creation opens no more lanes than runs overlap at one time. */
  lemma {:induction false} LanesHaveClique(runs: seq<Run>) returns (clique: multiset<Run>)
    requires Sorted(runs, NotLater)
    ensures IsClique(runs, clique) && |clique| == |PlaceAll(runs)|
  {
    if runs == [] {
      return multiset{};
    }
    var (front, run) := (runs[..|runs| - 1], runs[|runs| - 1]);
    var lanes := PlaceAll(front);
    assert runs == front + [run];
    clique := LanesHaveClique(front);
    assert IsClique(runs, clique);
    NewLaneOnlyIfAllBusy(lanes, run);
    if |Place(lanes, run)| == |lanes| + 1 {
      PlaceAllArranges(front);
      forall a | a in front ensures a.createdAt <= run.createdAt {
        var i :| 0 <= i < |front| && front[i] == a;
        assert NotLater(runs[i], runs[|runs| - 1]);
      }
      LastsAreRuns(lanes);
      RecentRunsOverlap(front, Lasts(lanes), run);
      clique := multiset(Lasts(lanes)) + multiset{run};
      assert |multiset(Lasts(lanes))| == |Lasts(lanes)|;
    }
  }

  /** A lane without overlap holds at most one run of a clique. */
  lemma LaneHoldsOneOfClique(lane: Lane, clique: multiset<Run>)
    requires NoOverlap(lane) && forall a, b :: a in clique && b in clique ==> Overlap(a, b)
    ensures |clique * multiset(lane)| <= 1
  {
    var both := clique * multiset(lane);
    if |both| > 1 {
      var a :| a in both;
      var rest := both - multiset{a};
      assert |rest| == |both| - 1;
      var b :| b in rest;
      assert multiset{a, b} <= multiset(lane);
      TwoPlaces(lane, a, b);
    }
  }

  lemma {:induction false} TwoPlaces(lane: Lane, a: Run, b: Run)
    requires multiset{a, b} <= multiset(lane)
    ensures exists i, j :: 0 <= i < j < |lane| && ((lane[i] == a && lane[j] == b) || (lane[i] == b && lane[j] == a))
  {
    assert a in multiset(lane);
    var i :| 0 <= i < |lane| && lane[i] == a;
    var others := lane[..i] + lane[i + 1..];
    assert lane == lane[..i] + [a] + lane[i + 1..];
    assert multiset(lane) == multiset(others) + multiset{a};
    assert b in multiset(others);
    var j :| 0 <= j < |others| && others[j] == b;
    if j < i {
      assert lane[j] == b;
    } else {
      assert lane[j + 1] == b;
    }
  }

  lemma SplitOff(c: multiset<Run>, a: multiset<Run>, b: multiset<Run>)
    requires c <= a + b
    ensures c - a <= b && |c| == |c - a| + |c * a|
  {
  }

  /** No arrangement has fewer lanes than a clique has runs. */
  lemma {:induction false} CliqueNeedsLanes(runs: seq<Run>, lanes: seq<Lane>, clique: multiset<Run>)
    requires IsArrangement(runs, lanes) && IsClique(runs, clique)
    ensures |clique| <= |lanes|
    decreases |lanes|
  {
    if lanes == [] {
      assert |clique| == 0 by { assert forall a :: a !in clique; }
    } else {
      var others := Flatten(lanes[1..]);
      LaneHoldsOneOfClique(lanes[0], clique);
      SplitOff(clique, multiset(lanes[0]), multiset(others));
      CliqueNeedsLanes(others, lanes[1..], clique - multiset(lanes[0]));
    }
  }

  /** What `organizeIntoLanes` returns. */
  function Organize(runs: seq<Run>): seq<Lane> {
    PlaceAll(Sort(runs, NotLater))
  }

  lemma OrganizeArranges(runs: seq<Run>)
    ensures IsArrangement(runs, Organize(runs))
    ensures forall k :: 0 <= k < |Organize(runs)| ==> Organize(runs)[k] != [] && Spaced(Organize(runs)[k])
  {
    SortKeepsElements(runs, NotLater);
    PlaceAllArranges(Sort(runs, NotLater));
    var lanes := Organize(runs);
    forall k | 0 <= k < |lanes| ensures NoOverlap(lanes[k]) {
      assert Spaced(lanes[k]);
    }
  }

  /** The number of lanes is the size of the largest set of mutually overlapping runs ... */
  lemma LanesEqualLargestClique(runs: seq<Run>)
    ensures exists clique :: IsClique(runs, clique) && |clique| == |Organize(runs)|
    ensures forall clique :: IsClique(runs, clique) ==> |clique| <= |Organize(runs)|
  {
    SortKeepsElements(runs, NotLater);
    SortSorts(runs, NotLater);
    var clique := LanesHaveClique(Sort(runs, NotLater));
    assert IsClique(runs, clique);
    OrganizeArranges(runs);
    forall other | IsClique(runs, other) ensures |other| <= |Organize(runs)| {
      CliqueNeedsLanes(runs, Organize(runs), other);
    }
  }

  /** ... so no arrangement whatsoever uses fewer. */
  lemma NoArrangementIsSmaller(runs: seq<Run>, lanes: seq<Lane>)
    requires IsArrangement(runs, lanes)
    ensures |Organize(runs)| <= |lanes|
  {
    LanesEqualLargestClique(runs);
    var clique :| IsClique(runs, clique) && |clique| == |Organize(runs)|;
    CliqueNeedsLanes(runs, lanes, clique);
  }

  // ------------------------------------------------------------------ the first lane that is free

  lemma {:induction false} PlaceAt(lanes: seq<Lane>, run: Run, k: nat)
    requires AllUsed(lanes) && k <= |lanes|
    requires forall l :: 0 <= l < k ==> !Fits(lanes[l], run)
    requires k < |lanes| ==> Fits(lanes[k], run)
    ensures Place(lanes, run) == if k < |lanes| then lanes[k := lanes[k] + [run]] else lanes + [[run]]
  {
    if lanes != [] && k > 0 {
      PlaceAt(lanes[1..], run, k - 1);
    }
  }

  lemma {:induction false} PlaceSpot(lanes: seq<Lane>, run: Run) returns (k: nat)
    requires AllUsed(lanes)
    ensures k <= |lanes| && (forall l :: 0 <= l < k ==> !Fits(lanes[l], run)) && (k < |lanes| ==> Fits(lanes[k], run))
  {
    k := 0;
    while k < |lanes| && !Fits(lanes[k], run)
      invariant k <= |lanes| && forall l :: 0 <= l < k ==> !Fits(lanes[l], run)
    {
      k := k + 1;
    }
  }

  /** The lane was still in use when the run began. */
  ghost predicate BusyAt(lane: Lane, run: Run) {
    exists i :: 0 <= i < |lane| && lane[i].createdAt <= run.createdAt <= lane[i].createdAt + RUN_LENGTH
  }

  /** No run could have been shown in a lane before its own. */
  ghost predicate EarlierLanesBusy(lanes: seq<Lane>) {
    forall j, k, i :: 0 <= j < k < |lanes| && 0 <= i < |lanes[k]| ==> BusyAt(lanes[j], lanes[k][i])
  }

  lemma BusyStays(lane: Lane, more: Run, run: Run)
    ensures BusyAt(lane, run) ==> BusyAt(lane + [more], run)
  {
    if i :| 0 <= i < |lane| && lane[i].createdAt <= run.createdAt <= lane[i].createdAt + RUN_LENGTH {
      assert (lane + [more])[i] == lane[i];
    }
  }

  lemma LaterRunIsPlaced(lanes: seq<Lane>, run: Run)
    requires AllUsed(lanes) && EarlierLanesBusy(lanes)
    requires forall k :: 0 <= k < |lanes| ==> Last(lanes[k]).createdAt <= run.createdAt
    ensures EarlierLanesBusy(Place(lanes, run))
  {
    var p := PlaceSpot(lanes, run);
    PlaceAt(lanes, run, p);
    var placed := Place(lanes, run);
    forall j, k, i | 0 <= j < k < |placed| && 0 <= i < |placed[k]| ensures BusyAt(placed[j], placed[k][i]) {
      if k == p && (p == |lanes| || i == |lanes[k]|) {
        assert placed[k][i] == run && placed[j] == lanes[j];
        assert !Fits(lanes[j], run) && lanes[j][|lanes[j]| - 1] == Last(lanes[j]);
      } else {
        assert BusyAt(lanes[j], lanes[k][i]);
        BusyStays(lanes[j], run, lanes[k][i]);
      }
    }
  }

  lemma {:induction false} FirstFit(runs: seq<Run>)
    requires Sorted(runs, NotLater)
    ensures EarlierLanesBusy(PlaceAll(runs))
  {
    if runs != [] {
      var (front, run) := (runs[..|runs| - 1], runs[|runs| - 1]);
      var lanes := PlaceAll(front);
      FirstFit(front);
      PlaceAllArranges(front);
      LastsAreRuns(lanes);
      forall k | 0 <= k < |lanes| ensures Last(lanes[k]).createdAt <= run.createdAt {
        LastIsListed(lanes, k);
        assert Last(lanes[k]) in multiset(front);
        var i :| 0 <= i < |front| && front[i] == Last(lanes[k]);
        assert NotLater(runs[i], runs[|runs| - 1]);
      }
      LaterRunIsPlaced(lanes, run);
    }
  }

  lemma {:induction false} LastIsListed(lanes: seq<Lane>, k: nat)
    requires AllUsed(lanes) && k < |lanes|
    ensures Last(lanes[k]) in Lasts(lanes)
  {
    if k > 0 {
      LastIsListed(lanes[1..], k - 1);
    }
  }

  // ------------------------------------------------------------------ the code

  method OrganizeIntoLanes(runs: seq<Run>) returns (lanes: seq<Lane>)
    ensures lanes == Organize(runs)
    ensures IsArrangement(runs, lanes) && EarlierLanesBusy(lanes)
    ensures forall other :: IsArrangement(runs, other) ==> |lanes| <= |other|
  {
    var sortedRuns := Sort(runs, NotLater);
    lanes := [];
    for i := 0 to |sortedRuns|
      invariant lanes == PlaceAll(sortedRuns[..i])
    {
      var run := sortedRuns[i];
      assert sortedRuns[..i + 1][..i] == sortedRuns[..i];
      var placed := false;
      ghost var before := lanes;
      for k := 0 to |lanes|
        invariant lanes == before && !placed
        invariant forall l :: 0 <= l < k ==> !Fits(lanes[l], run)
      {
        var lastRunInLane := Last(lanes[k]);
        if run.createdAt > lastRunInLane.createdAt + RUN_LENGTH {
          PlaceAt(lanes, run, k);
          lanes := lanes[k := lanes[k] + [run]];
          placed := true;
          break;
        }
      }
      if !placed {
        PlaceAt(lanes, run, |lanes|);
        lanes := lanes + [[run]];
      }
    }
    assert sortedRuns[..|sortedRuns|] == sortedRuns;
    OrganizeArranges(runs);
    SortSorts(runs, NotLater);
    FirstFit(sortedRuns);
    forall other | IsArrangement(runs, other) ensures |lanes| <= |other| {
      NoArrangementIsSmaller(runs, other);
    }
  }
}
