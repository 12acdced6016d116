/** Running a workflow graph as a state machine (engine.py, `_walk`, `_next_node`, `run`). */
module Engine {
  import opened Graphs
  import opened Wrappers
  import opened Workflows

  /**
   What may be raised: the engine's own exception, which includes every failure of the
   function kernel; any other exception; and what is no exception, such as cancellation.
   */
  datatype Thrown = WorkflowException | OtherException | Interruption

  /**
   Everything a visit depends on that the graph does not determine: what the step's work
   raises, if anything; what its condition or expression evaluates to (None if that raises,
   which is never the engine's own exception); and what the bookkeeping of an end step raises.
   */
  datatype Circumstance = Circumstance(
    work: Option<Thrown>,
    condition: Option<bool>,
    value: Option<string>,
    recording: Option<Thrown>)

  /** The circumstances of the first visit, the second, and so on. */
  type Oracle = nat -> Circumstance

  datatype Next = Goto(name: Node) | Nowhere | Raises

  function NextNode(step: Step, c: Circumstance): Next {
    match step
    case End(_, _) => Nowhere
    case If(_, then_, else_) =>
      if c.condition.None? then Raises
      else if c.condition.value then Goto(then_) else Goto(else_)
    case Switch(_, cases, default) =>
      if c.value.None? then Raises
      else if c.value.value in cases then Goto(cases[c.value.value])
      else if default.Some? then Goto(default.value) else Nowhere
    case Start(_, next) => Goto(next)
    case Task(_, _, _, next) => Goto(next)
  }

  /** How a run ends. */
  datatype Ending = Completed | VisitLimit | Halted | Failed(thrown: Thrown)

  function AfterRecording(recording: Option<Thrown>): Ending {
    if recording.Some? then Failed(recording.value) else Completed
  }

  datatype Walked = Walked(trace: seq<Node>, ending: Ending)

  /** The rest of a run that is about to visit `current` after `visits` visits. */
  function WalkFrom(m: map<Node, Step>, cap: int, oracle: Oracle, current: Node, visits: nat): Walked
    requires Closed(m) && current in m
    decreases cap - visits
  {
    if visits + 1 > cap then Walked([], VisitLimit)
    else
      var step := m[current];
      var c := oracle(visits);
      if step.Task? && c.work.Some? then Walked([], Failed(c.work.value))
      else if step.End? then Walked([current], AfterRecording(c.recording))
      else
        match NextNode(step, c)
        case Raises => Walked([current], Failed(OtherException))
        case Nowhere => Walked([current], Halted)
        case Goto(name) =>
          GotoIsTarget(step, c);
          var rest := WalkFrom(m, cap, oracle, name, visits + 1);
          Walked([current] + rest.trace, rest.ending)
  }

  /** Where the author of a step sends a run under given circumstances. */
  ghost predicate RoutedTo(step: Step, c: Circumstance, name: Node) {
    match step
    case Start(_, next) => name == next
    case Task(_, _, _, next) => name == next
    case If(_, then_, else_) => (c.condition == Some(true) && name == then_) || (c.condition == Some(false) && name == else_)
    case Switch(_, cases, default) =>
      && c.value.Some?
      && if c.value.value in cases then name == cases[c.value.value] else default == Some(name)
    case End(_, _) => false
  }

  /** The engine only ever follows declared transitions, and the one that applies. */
  lemma GotoIsTarget(step: Step, c: Circumstance)
    ensures NextNode(step, c).Goto? ==>
              NextNode(step, c).name in TransitionTargets(step) && RoutedTo(step, c, NextNode(step, c).name)
    ensures !NextNode(step, c).Goto? ==> forall name :: !RoutedTo(step, c, name)
  {
  }

  /** The declared transitions as edges. */
  ghost function Transitions(m: map<Node, Step>): set<(Node, Node)>
    requires Closed(m)
  {
    set u, v | u in m && v in m.Keys && v in TransitionTargets(m[u]) :: (u, v)
  }

  /** A run seen from the middle: what has been visited, and the rest. */
  ghost function After(trace: seq<Node>, rest: Walked): Walked {
    Walked(trace + rest.trace, rest.ending)
  }

  /** One visit. */
  lemma VisitUnfolds(m: map<Node, Step>, cap: int, oracle: Oracle, current: Node, visits: nat, trace: seq<Node>)
    requires Closed(m) && current in m
    ensures m[current].name == current
    ensures NextNode(m[current], oracle(visits)).Goto? ==> NextNode(m[current], oracle(visits)).name in m
    ensures var whole := After(trace, WalkFrom(m, cap, oracle, current, visits));
            var (step, c) := (m[current], oracle(visits));
            if visits + 1 > cap then whole == Walked(trace, VisitLimit)
            else if step.Task? && c.work.Some? then whole == Walked(trace, Failed(c.work.value))
            else if step.End? then whole == Walked(trace + [current], AfterRecording(c.recording))
            else match NextNode(step, c)
                 case Raises => whole == Walked(trace + [current], Failed(OtherException))
                 case Nowhere => whole == Walked(trace + [current], Halted)
                 case Goto(name) => whole == After(trace + [current], WalkFrom(m, cap, oracle, name, visits + 1))
  {
    var w := WalkFrom(m, cap, oracle, current, visits);
    assert trace + [] == trace;
    GotoIsTarget(m[current], oracle(visits));
    if |w.trace| > 0 {
      assert w.trace == [current] + w.trace[1..];
      assert trace + w.trace == trace + [current] + w.trace[1..];
    }
  }

  /** A run has got as far as an end step. */
  ghost predicate ReachedEnd(m: map<Node, Step>, trace: seq<Node>) {
    |trace| > 0 && trace[|trace| - 1] in m && m[trace[|trace| - 1]].End?
  }

  lemma AfterNothing(w: Walked)
    ensures After([], w) == w
  {
  }

  /** A run that goes on from its first visit. */
  lemma GoesOn(m: map<Node, Step>, cap: int, oracle: Oracle, current: Node, visits: nat)
    requires Closed(m) && current in m
    requires |WalkFrom(m, cap, oracle, current, visits).trace| > 1 || NextNode(m[current], oracle(visits)).Goto?
    ensures NextNode(m[current], oracle(visits)).Goto? && NextNode(m[current], oracle(visits)).name in m
    ensures var w := WalkFrom(m, cap, oracle, current, visits);
            var rest := WalkFrom(m, cap, oracle, NextNode(m[current], oracle(visits)).name, visits + 1);
            if visits + 1 > cap then w == Walked([], VisitLimit)
            else if m[current].Task? && oracle(visits).work.Some? then w == Walked([], Failed(oracle(visits).work.value))
            else !m[current].End? && w == Walked([current] + rest.trace, rest.ending)
  {
  }

  /** A run that is over after at most one visit. */
  lemma StopsHere(m: map<Node, Step>, cap: int, oracle: Oracle, current: Node, visits: nat)
    requires Closed(m) && current in m && !NextNode(m[current], oracle(visits)).Goto?
    ensures var (w, step, c) := (WalkFrom(m, cap, oracle, current, visits), m[current], oracle(visits));
            if visits + 1 > cap then w == Walked([], VisitLimit)
            else w.trace == [current]
                 && w.ending == if step.End? then AfterRecording(c.recording)
                                else if NextNode(step, c).Raises? then Failed(OtherException) else Halted
  {
  }

  lemma LastOfMore(current: Node, rest: seq<Node>)
    ensures rest != [] ==> ([current] + rest)[|[current] + rest| - 1] == rest[|rest| - 1]
  {
  }

  // ------------------------------------------------------------------ what every run keeps

  lemma {:induction false} TraceIsPath(m: map<Node, Step>, cap: int, oracle: Oracle, current: Node, visits: nat)
    requires Closed(m) && current in m
    ensures var w := WalkFrom(m, cap, oracle, current, visits);
            && (w.trace != [] ==> IsPath(Transitions(m), w.trace) && w.trace[0] == current)
            && (forall i :: 0 <= i < |w.trace| ==> w.trace[i] in m)
            && (visits <= cap ==> visits + |w.trace| <= cap)
    decreases cap - visits
  {
    var w := WalkFrom(m, cap, oracle, current, visits);
    if |w.trace| > 1 {
      var name := NextNode(m[current], oracle(visits)).name;
      GotoIsTarget(m[current], oracle(visits));
      TraceIsPath(m, cap, oracle, name, visits + 1);
      var rest := WalkFrom(m, cap, oracle, name, visits + 1).trace;
      assert IsPath(Transitions(m), [current, name]);
      PathConcat(Transitions(m), [current, name], rest);
      assert w.trace == [current, name] + rest[1..];
    }
  }

  /** Each step of the trace is the one its predecessor sends the run to. */
  ghost predicate TraceIsRouted(m: map<Node, Step>, oracle: Oracle, visits: nat, trace: seq<Node>) {
    && (forall i :: 0 <= i < |trace| ==> trace[i] in m)
    && forall i, j :: 0 <= i && j == i + 1 && j < |trace| ==> RoutedTo(m[trace[i]], oracle(visits + i), trace[j])
  }

  lemma {:induction false} WalkIsRouted(m: map<Node, Step>, cap: int, oracle: Oracle, current: Node, visits: nat)
    requires Closed(m) && current in m
    ensures var trace := WalkFrom(m, cap, oracle, current, visits).trace;
            TraceIsRouted(m, oracle, visits, trace) && (trace != [] ==> trace[0] == current)
    decreases cap - visits
  {
    hide WalkFrom, Closed, NextNode, RoutedTo;
    GotoIsTarget(m[current], oracle(visits));
    if NextNode(m[current], oracle(visits)).Goto? {
      GoesOn(m, cap, oracle, current, visits);
      if visits + 1 <= cap && !(m[current].Task? && oracle(visits).work.Some?) {
        var name := NextNode(m[current], oracle(visits)).name;
        WalkIsRouted(m, cap, oracle, name, visits + 1);
        RoutedOneMore(m, oracle, visits, current, WalkFrom(m, cap, oracle, name, visits + 1).trace);
      }
    } else {
      StopsHere(m, cap, oracle, current, visits);
    }
  }

  lemma RoutedOneMore(m: map<Node, Step>, oracle: Oracle, visits: nat, current: Node, rest: seq<Node>)
    requires current in m && TraceIsRouted(m, oracle, visits + 1, rest)
    requires rest != [] ==> RoutedTo(m[current], oracle(visits), rest[0])
    ensures TraceIsRouted(m, oracle, visits, [current] + rest)
  {
    var trace := [current] + rest;
    forall i, j | 0 <= i && j == i + 1 && j < |trace| ensures RoutedTo(m[trace[i]], oracle(visits + i), trace[j]) {
      if i > 0 {
        assert RoutedTo(m[rest[i - 1]], oracle(visits + 1 + (i - 1)), rest[i]);
      }
    }
  }

  /** An end step is only ever visited last, and completion means that it was. */
  lemma {:induction false} EndsOnlyAtEnd(m: map<Node, Step>, cap: int, oracle: Oracle, current: Node, visits: nat)
    requires Closed(m) && current in m
    ensures var w := WalkFrom(m, cap, oracle, current, visits);
            && (forall i :: 0 <= i < |w.trace| - 1 ==> w.trace[i] in m && !m[w.trace[i]].End?)
            && (w.ending.Completed? <==> ReachedEnd(m, w.trace) && oracle(visits + |w.trace| - 1).recording.None?)
    decreases cap - visits
  {
    hide WalkFrom, Closed, NextNode;
    if NextNode(m[current], oracle(visits)).Goto? {
      GoesOn(m, cap, oracle, current, visits);
      var name := NextNode(m[current], oracle(visits)).name;
      if visits + 1 <= cap {
        EndsOnlyAtEnd(m, cap, oracle, name, visits + 1);
        LastOfMore(current, WalkFrom(m, cap, oracle, name, visits + 1).trace);
      }
    } else {
      StopsHere(m, cap, oracle, current, visits);
    }
  }

  /** A run halts early only at a switch none of whose cases match and that has no default. */
  lemma {:induction false} HaltsOnlyAtSwitch(m: map<Node, Step>, cap: int, oracle: Oracle, current: Node, visits: nat)
    requires Closed(m) && current in m
    requires WalkFrom(m, cap, oracle, current, visits).ending.Halted?
    ensures var trace := WalkFrom(m, cap, oracle, current, visits).trace;
            && |trace| > 0 && trace[|trace| - 1] in m
            && var (step, c) := (m[trace[|trace| - 1]], oracle(visits + |trace| - 1));
               step.Switch? && step.default.None? && c.value.Some? && c.value.value !in step.cases
    decreases cap - visits
  {
    hide WalkFrom, Closed;
    if NextNode(m[current], oracle(visits)).Goto? {
      GoesOn(m, cap, oracle, current, visits);
      var name := NextNode(m[current], oracle(visits)).name;
      HaltsOnlyAtSwitch(m, cap, oracle, name, visits + 1);
      LastOfMore(current, WalkFrom(m, cap, oracle, name, visits + 1).trace);
    } else {
      StopsHere(m, cap, oracle, current, visits);
    }
  }

  // ------------------------------------------------------------------ when the visit limit strikes

  /** A run that hits the limit was about to walk a path of cap + 1 steps. */
  lemma {:induction false} LimitMeansLongPath(m: map<Node, Step>, cap: nat, oracle: Oracle, current: Node, visits: nat)
    returns (p: seq<Node>)
    requires Closed(m) && current in m && visits <= cap
    requires WalkFrom(m, cap, oracle, current, visits).ending.VisitLimit?
    ensures IsPath(Transitions(m), p) && p[0] == current && visits + |p| == cap + 1
    decreases cap - visits
  {
    if visits == cap {
      p := [current];
    } else {
      var name := NextNode(m[current], oracle(visits)).name;
      GotoIsTarget(m[current], oracle(visits));
      var rest := LimitMeansLongPath(m, cap, oracle, name, visits + 1);
      assert IsPath(Transitions(m), [current, name]);
      PathConcat(Transitions(m), [current, name], rest);
      p := [current, name] + rest[1..];
    }
  }

  ghost function LongestLength(strings: set<string>): (n: nat)
    ensures forall s :: s in strings ==> |s| <= n
  {
    if strings == {} then 0
    else
      var s :| s in strings;
      var n := LongestLength(strings - {s});
      if |s| < n then n else |s|
  }

  /** There is always one more string. */
  ghost function Fresh(strings: set<string>): (s: string)
    ensures s !in strings
  {
    seq(LongestLength(strings) + 1, _ => 'x')
  }

  /** Circumstances under which the step goes to t. */
  ghost function Towards(step: Step, t: Node): (c: Circumstance)
    requires t in TransitionTargets(step)
    ensures NextNode(step, c) == Goto(t) && RoutedTo(step, c, t) && c.work.None?
  {
    var plain := Circumstance(None, Some(true), Some(""), None);
    match step
    case If(_, then_, _) => plain.(condition := Some(then_ == t))
    case Switch(_, cases, default) =>
      if t in cases.Values then
        var key :| key in cases && cases[key] == t;
        plain.(value := Some(key))
      else plain.(value := Some(Fresh(cases.Keys)))
    case _ => plain
  }

  /** The circumstances that lead along p. */
  ghost function Along(m: map<Node, Step>, p: seq<Node>): Oracle {
    (i: nat) =>
      if i + 1 < |p| && p[i] in m && p[i + 1] in TransitionTargets(m[p[i]]) then Towards(m[p[i]], p[i + 1])
      else Circumstance(None, None, None, None)
  }

  lemma {:induction false} AlongFollowsPath(m: map<Node, Step>, p: seq<Node>, i: nat)
    requires Closed(m) && IsPath(Transitions(m), p) && i < |p| && p[0] in m
    ensures p[i] in m && WalkFrom(m, |p| - 1, Along(m, p), p[i], i).ending.VisitLimit?
    decreases |p| - i
  {
    if i > 0 {
      assert (p[i - 1], p[i]) in Transitions(m);
    }
    if i + 1 < |p| {
      assert (p[i], p[i + 1]) in Transitions(m);
      AlongFollowsPath(m, p, i + 1);
    }
  }

  ghost predicate CanHitLimit(m: map<Node, Step>, cap: int, start: Node)
    requires Closed(m) && start in m
  {
    exists oracle: Oracle :: WalkFrom(m, cap, oracle, start, 0).ending.VisitLimit?
  }

  /** Some run raises the visit-limit error exactly when the graph has a path of cap + 1 steps from the start. */
  lemma LimitIffLongPath(m: map<Node, Step>, cap: nat, start: Node)
    requires Closed(m) && start in m
    ensures CanHitLimit(m, cap, start) <==> exists p :: IsPath(Transitions(m), p) && p[0] == start && |p| == cap + 1
  {
    if CanHitLimit(m, cap, start) {
      var oracle: Oracle :| WalkFrom(m, cap, oracle, start, 0).ending.VisitLimit?;
      var p := LimitMeansLongPath(m, cap, oracle, start, 0);
    }
    if p :| IsPath(Transitions(m), p) && p[0] == start && |p| == cap + 1 {
      AlongFollowsPath(m, p, 0);
    }
  }

  /** No node that the start reaches lies on a cycle. */
  ghost predicate NoCycleFrom(e: set<(Node, Node)>, start: Node) {
    forall c :: IsPath(e, c) && |c| >= 2 && Reaches(e, start, c[0]) ==> c[0] != c[|c| - 1]
  }

  lemma NoCycleMeansDistinct(e: set<(Node, Node)>, p: seq<Node>)
    requires IsPath(e, p) && NoCycleFrom(e, p[0])
    ensures Distinct(p)
  {
    forall i, j | 0 <= i < j < |p| ensures p[i] != p[j] {
      SubPath(e, p, 0, i);
      SubPath(e, p, i, j);
      assert Reaches(e, p[0], p[i..j + 1][0]);
    }
  }

  /** Without a reachable cycle, a cap of one visit per step is never exceeded, whatever the branches decide. */
  lemma AcyclicNeverHitsLimit(m: map<Node, Step>, cap: nat, start: Node)
    requires Closed(m) && start in m && NoCycleFrom(Transitions(m), start) && |m| <= cap
    ensures !CanHitLimit(m, cap, start)
  {
    LimitIffLongPath(m, cap, start);
    forall p | IsPath(Transitions(m), p) && p[0] == start ensures |p| <= cap {
      NoCycleMeansDistinct(Transitions(m), p);
      forall i | 0 <= i < |p| ensures p[i] in m.Keys {
        if i > 0 {
          assert (p[i - 1], p[i]) in Transitions(m);
        }
      }
      DistinctFits(p, m.Keys);
    }
  }

  /** Going round a cycle gives paths of any length. */
  lemma {:induction false} CycleGivesLongPath(e: set<(Node, Node)>, start: Node, c: seq<Node>, length: nat) returns (p: seq<Node>)
    requires IsPath(e, c) && |c| >= 2 && c[0] == c[|c| - 1] && Reaches(e, start, c[0])
    ensures IsPathBetween(e, start, p, c[0]) && |p| > length
  {
    if length == 0 {
      p :| IsPathBetween(e, start, p, c[0]);
    } else {
      var q := CycleGivesLongPath(e, start, c, length - 1);
      PathConcat(e, q, c);
      p := q + c[1..];
    }
  }

  /** With a reachable cycle, every cap is exceeded by some run. */
  lemma CycleHitsEveryLimit(m: map<Node, Step>, cap: nat, start: Node)
    requires Closed(m) && start in m && !NoCycleFrom(Transitions(m), start)
    ensures CanHitLimit(m, cap, start)
  {
    var e := Transitions(m);
    var c :| IsPath(e, c) && |c| >= 2 && Reaches(e, start, c[0]) && c[0] == c[|c| - 1];
    var p := CycleGivesLongPath(e, start, c, cap);
    SubPath(e, p, 0, cap);
    var q := p[0..cap + 1];
    assert IsPath(e, q) && q[0] == start && |q| == cap + 1;
    LimitIffLongPath(m, cap, start);
  }

  /** The visit limit only ever concerns workflows with a loop, once it is at least the number of steps. */
  lemma LimitIsAboutLoops(m: map<Node, Step>, cap: nat, start: Node)
    requires Closed(m) && start in m && |m| <= cap
    ensures CanHitLimit(m, cap, start) <==> !NoCycleFrom(Transitions(m), start)
  {
    if NoCycleFrom(Transitions(m), start) {
      AcyclicNeverHitsLimit(m, cap, start);
    } else {
      CycleHitsEveryLimit(m, cap, start);
    }
  }

  // ------------------------------------------------------------------ what a run leaves behind

  datatype Status = Running | HasCompleted | HasFailed

  /** What an ending raises; exceeding the limit and halting are the engine's own exceptions. */
  function Raised(ending: Ending): Option<Thrown> {
    match ending
    case Completed => None
    case VisitLimit => Some(WorkflowException)
    case Halted => Some(WorkflowException)
    case Failed(thrown) => Some(thrown)
  }

  /** What a step raises while it is executed, routed from or recorded. */
  function Throws(step: Step, c: Circumstance): Option<Thrown> {
    match step
    case Task(_, _, _, _) => c.work
    case End(_, _) => c.recording
    case If(_, _, _) => if c.condition.None? then Some(OtherException) else None
    case Switch(_, _, _) => if c.value.None? then Some(OtherException) else None
    case Start(_, _) => None
  }

  lemma RoutingRaises(step: Step, c: Circumstance)
    ensures NextNode(step, c).Raises? ==> Throws(step, c) == Some(OtherException) && !step.Task? && !step.End?
  {
  }

  /** The status of the state after `run`. */
  ghost function StatusAfter(m: map<Node, Step>, cap: int, oracle: Oracle, start: Node): Status
    requires Closed(m) && start in m
  {
    var w := WalkFrom(m, cap, oracle, start, 0);
    if w.ending == Failed(OtherException) then HasFailed
    else if ReachedEnd(m, w.trace) then HasCompleted
    else Running
  }

  /** The step that a run comes to visit k visits on, if it gets that far. */
  ghost function NthVisit(m: map<Node, Step>, cap: int, oracle: Oracle, current: Node, visits: nat, k: nat): Option<Node>
    requires Closed(m) && current in m
    decreases k
  {
    if visits + 1 > cap then None
    else if k == 0 then Some(current)
    else
      match NextNode(m[current], oracle(visits))
      case Goto(name) =>
        GotoIsTarget(m[current], oracle(visits));
        if Throws(m[current], oracle(visits)).Some? then None else NthVisit(m, cap, oracle, name, visits + 1, k - 1)
      case _ => None
  }

  /** Every visit is to the step that the visit before sends the run to. */
  lemma {:induction false} VisitsAreRouted(m: map<Node, Step>, cap: int, oracle: Oracle, current: Node, visits: nat, k: nat)
    requires Closed(m) && current in m && NthVisit(m, cap, oracle, current, visits, k + 1).Some?
    ensures var (p, n) := (NthVisit(m, cap, oracle, current, visits, k), NthVisit(m, cap, oracle, current, visits, k + 1));
            && p.Some? && p.value in m && RoutedTo(m[p.value], oracle(visits + k), n.value)
            && Throws(m[p.value], oracle(visits + k)) == None
    decreases k
  {
    GotoIsTarget(m[current], oracle(visits));
    var name := NextNode(m[current], oracle(visits)).name;
    if k > 0 {
      VisitsAreRouted(m, cap, oracle, name, visits + 1, k - 1);
    } else {
      assert NthVisit(m, cap, oracle, name, visits + 1, 0) == Some(name);
    }
  }

  /** Visit k raises t. */
  ghost predicate ThrowsAt(m: map<Node, Step>, cap: int, oracle: Oracle, current: Node, visits: nat, k: nat, t: Thrown)
    requires Closed(m) && current in m
  {
    var n := NthVisit(m, cap, oracle, current, visits, k);
    n.Some? && n.value in m && Throws(m[n.value], oracle(visits + k)) == Some(t)
  }

  lemma ThrowsHere(m: map<Node, Step>, cap: int, oracle: Oracle, current: Node, visits: nat, t: Thrown)
    requires Closed(m) && current in m && visits + 1 <= cap && Throws(m[current], oracle(visits)) == Some(t)
    ensures var w := WalkFrom(m, cap, oracle, current, visits);
            w.ending == Failed(t) && w.trace == if m[current].Task? then [] else [current]
  {
  }

  /** What a visited step raises ends the run. */
  lemma {:induction false} ThrowingEndsRun(m: map<Node, Step>, cap: int, oracle: Oracle, current: Node, visits: nat, k: nat, t: Thrown)
    requires Closed(m) && current in m && ThrowsAt(m, cap, oracle, current, visits, k, t)
    ensures var w := WalkFrom(m, cap, oracle, current, visits);
            && w.ending == Failed(t)
            && (ReachedEnd(m, w.trace) <==> m[NthVisit(m, cap, oracle, current, visits, k).value].End?)
    decreases k
  {
    hide WalkFrom, NextNode, Closed;
    if k == 0 {
      ThrowsHere(m, cap, oracle, current, visits, t);
    } else {
      var name := NextNode(m[current], oracle(visits)).name;
      GoesOn(m, cap, oracle, current, visits);
      ThrowingEndsRun(m, cap, oracle, name, visits + 1, k - 1, t);
      LastOfMore(current, WalkFrom(m, cap, oracle, name, visits + 1).trace);
    }
  }

  lemma {:induction false} FailureIsThrown(m: map<Node, Step>, cap: int, oracle: Oracle, current: Node, visits: nat) returns (k: nat)
    requires Closed(m) && current in m && WalkFrom(m, cap, oracle, current, visits).ending.Failed?
    ensures ThrowsAt(m, cap, oracle, current, visits, k, WalkFrom(m, cap, oracle, current, visits).ending.thrown)
    decreases cap - visits
  {
    if Throws(m[current], oracle(visits)).Some? {
      k := 0;
    } else {
      GoesOn(m, cap, oracle, current, visits);
      hide WalkFrom;
      var name := NextNode(m[current], oracle(visits)).name;
      var l := FailureIsThrown(m, cap, oracle, name, visits + 1);
      k := l + 1;
    }
  }

  /** A run leaves the state failed exactly when a step it visits raises an exception that is not the engine's own. */
  lemma FailedIffOtherException(m: map<Node, Step>, cap: int, oracle: Oracle, start: Node)
    requires Closed(m) && start in m
    ensures StatusAfter(m, cap, oracle, start).HasFailed? <==> exists k :: ThrowsAt(m, cap, oracle, start, 0, k, OtherException)
  {
    if StatusAfter(m, cap, oracle, start).HasFailed? {
      var k := FailureIsThrown(m, cap, oracle, start, 0);
    }
    if k :| ThrowsAt(m, cap, oracle, start, 0, k, OtherException) {
      ThrowingEndsRun(m, cap, oracle, start, 0, k, OtherException);
    }
  }

  /** A step other than an end step that raises the engine's own exception leaves the state running. */
  lemma OwnExceptionStaysRunning(m: map<Node, Step>, cap: int, oracle: Oracle, start: Node, k: nat)
    requires Closed(m) && start in m && ThrowsAt(m, cap, oracle, start, 0, k, WorkflowException)
    ensures var n := NthVisit(m, cap, oracle, start, 0, k).value;
            StatusAfter(m, cap, oracle, start) == if m[n].End? then HasCompleted else Running
  {
    ThrowingEndsRun(m, cap, oracle, start, 0, k, WorkflowException);
  }

  /** A workflow of one tool call. */
  const TOOL_CALL: seq<Step> := [Start("start", "call"), Task("call", Function, "output", "end"), End("end", "output")]

  lemma ToolCallIsValid()
    ensures IsValid(TOOL_CALL, {"output"}, None, "start")
  {
    assert TOOL_CALL[0].Start? && TOOL_CALL[2].End?;
    assert TOOL_CALL[0].name == "start" && TOOL_CALL[1].name == "call" && TOOL_CALL[2].name == "end";
    assert {"start", "call", "end"} <= Names(TOOL_CALL);
  }

  /** So a failing tool, whose exception is the engine's own kind, is not recorded as a failure. */
  lemma FailingToolIsNotRecorded(cap: int, oracle: Oracle)
    requires cap >= 2 && oracle(1).work == Some(WorkflowException)
    ensures IsValid(TOOL_CALL, {"output"}, None, "start") && Closed(StepMap(TOOL_CALL)) && "start" in StepMap(TOOL_CALL)
    ensures StatusAfter(StepMap(TOOL_CALL), cap, oracle, "start") == Running
  {
    ToolCallIsValid();
    ValidGraphIsClosed(TOOL_CALL, {"output"}, None, "start");
    StepMapHoldsAll(TOOL_CALL);
    hide StepMap, IsValid, StatusAfter;
    var m := StepMap(TOOL_CALL);
    assert m[TOOL_CALL[0].name] == TOOL_CALL[0] && m[TOOL_CALL[1].name] == TOOL_CALL[1];
    assert NthVisit(m, cap, oracle, "call", 1, 0) == Some("call");
    assert NthVisit(m, cap, oracle, "start", 0, 1) == Some("call");
    OwnExceptionStaysRunning(m, cap, oracle, "start", 1);
  }

  // ------------------------------------------------------------------ the code

  class WorkflowState {
    var trace: seq<Node>
    var status: Status
    var currentNode: Option<Node>

    constructor ()
      ensures trace == [] && status == Running && currentNode == None
    {
      trace, status, currentNode := [], Running, None;
    }
  }

  function LastOf(trace: seq<Node>): Option<Node> {
    if trace == [] then None else Some(trace[|trace| - 1])
  }

  /** The current node is the step that raised t: a task that is not in the trace, or the last of the trace. */
  ghost predicate FailedIn(m: map<Node, Step>, current: Option<Node>, oracle: Oracle, trace: seq<Node>, t: Thrown) {
    && current.Some? && current.value in m
    && if m[current.value].Task? then oracle(|trace|).work == Some(t)
       else LastOf(trace) == current && Throws(m[current.value], oracle(|trace| - 1)) == Some(t)
  }

  class WorkflowEngine {
    const stepMap: map<Node, Step>
    const start: Node
    const maxNodeVisits: int

    ghost predicate Valid() {
      Closed(stepMap) && start in stepMap
    }

    constructor (steps: seq<Step>, ghost dataTypes: set<string>, ghost declaredStart: Option<Node>, entry: Node, maxNodeVisits: int)
      requires IsValid(steps, dataTypes, declaredStart, entry)
      ensures Valid() && stepMap == StepMap(steps) && start == entry && this.maxNodeVisits == maxNodeVisits
    {
      ValidGraphIsClosed(steps, dataTypes, declaredStart, entry);
      stepMap, start, this.maxNodeVisits := StepMap(steps), entry, maxNodeVisits;
    }

    /** The loop of `_walk`, with `_finish`. Every ending but Completed is an exception. */
    method Walk(state: WorkflowState, oracle: Oracle) returns (ending: Ending)
      requires Valid() && state.trace == [] && state.status == Running && state.currentNode == None
      modifies state
      ensures Walked(state.trace, ending) == WalkFrom(stepMap, maxNodeVisits, oracle, start, 0)
      ensures TraceIsRouted(stepMap, oracle, 0, state.trace) && (state.trace != [] ==> state.trace[0] == start)
      ensures state.status == if ReachedEnd(stepMap, state.trace) then HasCompleted else Running
      ensures if ending.Failed? then FailedIn(stepMap, state.currentNode, oracle, state.trace, ending.thrown)
              else state.currentNode == LastOf(state.trace)
    {
      hide Closed, WalkFrom, NextNode, After, RoutedTo, TraceIsRouted;
      WalkIsRouted(stepMap, maxNodeVisits, oracle, start, 0);
      ghost var whole := WalkFrom(stepMap, maxNodeVisits, oracle, start, 0);
      AfterNothing(whole);
      var current := Some(start);
      var visits := 0;
      while current.Some?
        invariant |state.trace| == visits && state.status == Running
        invariant current.Some? ==> current.value in stepMap
        invariant whole ==
                  if current.None? then Walked(state.trace, Halted)
                  else After(state.trace, WalkFrom(stepMap, maxNodeVisits, oracle, current.value, visits))
        invariant state.currentNode == LastOf(state.trace)
        invariant !ReachedEnd(stepMap, state.trace)
        decreases current.Some?, maxNodeVisits - visits
      {
        VisitUnfolds(stepMap, maxNodeVisits, oracle, current.value, visits, state.trace);
        var step := stepMap[current.value];
        var c := oracle(visits);
        visits := visits + 1;
        if visits > maxNodeVisits {
          return VisitLimit;
        }
        state.currentNode := Some(step.name);
        if step.Task? && c.work.Some? {
          return Failed(c.work.value);
        }
        state.trace := state.trace + [step.name];
        if step.End? {
          state.status := HasCompleted;
          return AfterRecording(c.recording);
        }
        RoutingRaises(step, c);
        match NextNode(step, c) {
          case Raises => return Failed(OtherException);
          case Nowhere => current := None;
          case Goto(name) => current := Some(name);
        }
      }
      return Halted;
    }

    /**
     The exception handlers of `run`: the engine's own exceptions pass through unrecorded,
     any other exception marks the state failed and is wrapped, an interruption passes through.
     */
    method Run(state: WorkflowState, oracle: Oracle) returns (raised: Option<Thrown>)
      requires Valid() && state.trace == [] && state.status == Running && state.currentNode == None
      modifies state
      ensures state.trace == WalkFrom(stepMap, maxNodeVisits, oracle, start, 0).trace
      ensures TraceIsRouted(stepMap, oracle, 0, state.trace) && (state.trace != [] ==> state.trace[0] == start)
      ensures state.status == StatusAfter(stepMap, maxNodeVisits, oracle, start)
      ensures raised == match Raised(WalkFrom(stepMap, maxNodeVisits, oracle, start, 0).ending)
                        case Some(OtherException) => Some(WorkflowException)
                        case r => r
    {
      hide WalkFrom;
      var ending := Walk(state, oracle);
      raised := Raised(ending);
      if raised == Some(OtherException) {
        state.status := HasFailed;
        raised := Some(WorkflowException);
      }
    }
  }
}
