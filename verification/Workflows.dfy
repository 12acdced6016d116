/** Workflow graphs and what makes one valid (models.py). */
module Workflows {
  import opened Graphs
  import opened Wrappers

  datatype TaskKind = Llm | Agent | Function

  datatype Step =
    | Start(name: Node, next: Node)
    | End(name: Node, output: string)
    | Task(name: Node, kind: TaskKind, output: string, next: Node)
    | If(name: Node, then_: Node, else_: Node)
    | Switch(name: Node, cases: map<string, Node>, default: Option<Node>)

  function TransitionTargets(step: Step): set<Node> {
    match step
    case If(_, then_, else_) => {then_, else_}
    case Switch(_, cases, default) => cases.Values + if default.Some? then {default.value} else {}
    case End(_, _) => {}
    case Start(_, next) => {next}
    case Task(_, _, _, next) => {next}
  }

  /** The data type a step stores its result under, if it has one. */
  function OutputOf(step: Step): Option<string> {
    match step
    case End(_, output) => Some(output)
    case Task(_, _, output, _) => Some(output)
    case _ => None
  }

  function Names(steps: seq<Step>): set<Node> {
    set i | 0 <= i < |steps| :: steps[i].name
  }

  /** Later steps replace earlier ones of the same name. */
  function StepMap(steps: seq<Step>): map<Node, Step> {
    if steps == [] then map[]
    else StepMap(steps[..|steps| - 1])[steps[|steps| - 1].name := steps[|steps| - 1]]
  }

  datatype GraphError =
    | DuplicateNames
    | NoStartNode
    | NoEndNode
    | UnknownStart(name: Node)
    | SeveralStartNodes
    | UnknownTarget(node: Node)
    | UndeclaredOutput(node: Node)

  // ------------------------------------------------------------------ validity, stated at once

  ghost predicate NamesDistinct(steps: seq<Step>) {
    forall i, j :: 0 <= i < j < |steps| ==> steps[i].name != steps[j].name
  }

  ghost predicate TargetsKnown(steps: seq<Step>, step: Step) {
    TransitionTargets(step) <= Names(steps)
  }

  ghost predicate OutputDeclared(dataTypes: set<string>, step: Step) {
    OutputOf(step).Some? ==> OutputOf(step).value in dataTypes
  }

  /** `entry` is where execution begins, given what the author wrote as `start`. */
  ghost predicate IsEntry(steps: seq<Step>, start: Option<Node>, entry: Node) {
    match start
    case Some(name) => entry == name && name in Names(steps)
    case None => exists i :: 0 <= i < |steps| && steps[i].Start? && steps[i].name == entry
                             && forall j :: 0 <= j < |steps| && steps[j].Start? ==> j == i
  }

  ghost predicate IsValid(steps: seq<Step>, dataTypes: set<string>, start: Option<Node>, entry: Node) {
    && NamesDistinct(steps)
    && (exists i :: 0 <= i < |steps| && steps[i].Start?)
    && (exists i :: 0 <= i < |steps| && steps[i].End?)
    && IsEntry(steps, start, entry)
    && (forall i :: 0 <= i < |steps| ==> TargetsKnown(steps, steps[i]))
    && (forall i :: 0 <= i < |steps| ==> OutputDeclared(dataTypes, steps[i]))
  }

  /** What each complaint of the validator means. */
  ghost predicate IsFault(steps: seq<Step>, dataTypes: set<string>, start: Option<Node>, error: GraphError) {
    match error
    case DuplicateNames => !NamesDistinct(steps)
    case NoStartNode => forall i :: 0 <= i < |steps| ==> !steps[i].Start?
    case NoEndNode => forall i :: 0 <= i < |steps| ==> !steps[i].End?
    case UnknownStart(name) => start == Some(name) && name !in Names(steps)
    case SeveralStartNodes => start == None && SeveralStarts(steps)
    case UnknownTarget(node) => exists i :: 0 <= i < |steps| && steps[i].name == node && !TargetsKnown(steps, steps[i])
    case UndeclaredOutput(node) => exists i :: 0 <= i < |steps| && steps[i].name == node && !OutputDeclared(dataTypes, steps[i])
  }

  /** The order in which the validator looks for faults. */
  function Rank(error: GraphError): nat {
    match error
    case DuplicateNames => 0
    case NoStartNode => 1
    case NoEndNode => 2
    case UnknownStart(_) => 3
    case SeveralStartNodes => 3
    case UnknownTarget(_) => 4
    case UndeclaredOutput(_) => 5
  }

  ghost predicate NothingBefore(steps: seq<Step>, dataTypes: set<string>, start: Option<Node>, rank: nat) {
    forall error :: Rank(error) < rank ==> !IsFault(steps, dataTypes, start, error)
  }

  /** Any fault rules out every entry point. */
  lemma FaultMeansInvalid(steps: seq<Step>, dataTypes: set<string>, start: Option<Node>, error: GraphError, entry: Node)
    requires IsFault(steps, dataTypes, start, error)
    ensures !IsValid(steps, dataTypes, start, entry)
  {
  }

  /** End steps and tasks have outputs; they and nothing else are asked to be declared. */
  lemma OutputsAreDeclared(dataTypes: set<string>, step: Step)
    ensures OutputDeclared(dataTypes, step) <==> (step.End? || step.Task? ==> step.output in dataTypes)
  {
  }

  /** Start steps and tasks have one target, branches several, end steps none; all are asked to be known. */
  lemma TargetsAreKnown(steps: seq<Step>, step: Step)
    ensures TargetsKnown(steps, step) <==>
            && (step.Start? || step.Task? ==> step.next in Names(steps))
            && (step.If? ==> step.then_ in Names(steps) && step.else_ in Names(steps))
            && (step.Switch? ==> (forall value :: value in step.cases ==> step.cases[value] in Names(steps))
                                 && (step.default.Some? ==> step.default.value in Names(steps)))
  {
    if step.Switch? {
      forall value | value in step.cases ensures step.cases[value] in TransitionTargets(step) {}
    }
  }

  // ------------------------------------------------------------------ what a valid graph guarantees

  /** Every transition leads to a step of the map, and the map is keyed by name. */
  ghost predicate Closed(m: map<Node, Step>) {
    forall n :: n in m ==> m[n].name == n && TransitionTargets(m[n]) <= m.Keys
  }

  lemma NamesOfMore(steps: seq<Step>)
    requires steps != []
    ensures Names(steps) == Names(steps[..|steps| - 1]) + {steps[|steps| - 1].name}
  {
  }

  lemma {:induction false} StepMapHoldsAll(steps: seq<Step>)
    requires NamesDistinct(steps)
    ensures StepMap(steps).Keys == Names(steps)
    ensures forall i :: 0 <= i < |steps| ==> steps[i].name in StepMap(steps) && StepMap(steps)[steps[i].name] == steps[i]
  {
    if steps != [] {
      var front := steps[..|steps| - 1];
      StepMapHoldsAll(front);
      NamesOfMore(steps);
      hide Names;
      forall i | 0 <= i < |front| ensures front[i] == steps[i] && steps[i].name != steps[|steps| - 1].name {}
    }
  }

  lemma ValidGraphIsClosed(steps: seq<Step>, dataTypes: set<string>, start: Option<Node>, entry: Node)
    requires IsValid(steps, dataTypes, start, entry)
    ensures Closed(StepMap(steps)) && entry in StepMap(steps)
  {
    StepMapHoldsAll(steps);
    var m := StepMap(steps);
    forall n | n in m ensures m[n].name == n && TransitionTargets(m[n]) <= m.Keys {
      var i :| 0 <= i < |steps| && steps[i].name == n;
      assert TargetsKnown(steps, steps[i]);
    }
  }

  // ------------------------------------------------------------------ the validator

  /** Where the start nodes are, in order. */
  function StartNodes(steps: seq<Step>): (starts: seq<nat>)
    ensures forall i :: i in starts <==> 0 <= i < |steps| && steps[i].Start?
    ensures forall k, l :: 0 <= k < l < |starts| ==> starts[k] < starts[l]
  {
    if steps == [] then []
    else
      var front := StartNodes(steps[..|steps| - 1]);
      assert forall k :: 0 <= k < |front| ==> front[k] in front;
      if steps[|steps| - 1].Start? then front + [|steps| - 1] else front
  }

  ghost predicate SeveralStarts(steps: seq<Step>) {
    exists i, j :: 0 <= i < j < |steps| && steps[i].Start? && steps[j].Start?
  }

  /** What the number of start nodes tells. */
  lemma StartNodesTell(steps: seq<Step>)
    ensures var starts := StartNodes(steps);
            && (starts == [] <==> forall i :: 0 <= i < |steps| ==> !steps[i].Start?)
            && (|starts| == 1 ==> starts[0] < |steps| && IsEntry(steps, None, steps[starts[0]].name))
            && (|starts| > 1 ==> SeveralStarts(steps))
  {
  }

  class WorkflowGraph {
    const steps: seq<Step>
    const dataTypes: set<string>
    var start: Option<Node>

    constructor (steps: seq<Step>, dataTypes: set<string>, start: Option<Node>)
      ensures this.steps == steps && this.dataTypes == dataTypes && this.start == start
    {
      this.steps, this.dataTypes, this.start := steps, dataTypes, start;
    }

    /** Raises the first fault it finds; otherwise settles the entry point. */
    method Validate() returns (error: Option<GraphError>)
      modifies this`start
      ensures error.Some? ==> IsFault(steps, dataTypes, old(start), error.value)
                              && NothingBefore(steps, dataTypes, old(start), Rank(error.value))
      ensures error.None? ==> start.Some? && IsValid(steps, dataTypes, old(start), start.value)
      ensures error.None? ==> forall i :: 0 <= i < |steps| && (steps[i].End? || steps[i].Task?) ==> steps[i].output in dataTypes
      ensures forall n :: error == Some(UndeclaredOutput(n)) ==>
                exists i :: 0 <= i < |steps| && steps[i].name == n && (steps[i].End? || steps[i].Task?) && steps[i].output !in dataTypes
      ensures old(start).Some? ==> start == old(start)
    {
      hide IsEntry, TargetsKnown, OutputDeclared, StartNodes, SeveralStarts, Names;
      if exists i :: 0 <= i < |steps| && exists j :: i < j < |steps| && steps[i].name == steps[j].name {
        return Some(DuplicateNames);
      }
      assert NamesDistinct(steps);
      hide NamesDistinct;
      var starts := StartNodes(steps);
      StartNodesTell(steps);
      if starts == [] {
        return Some(NoStartNode);
      }
      if !exists i :: 0 <= i < |steps| && steps[i].End? {
        return Some(NoEndNode);
      }
      if start.Some? {
        if start.value !in Names(steps) {
          return Some(UnknownStart(start.value));
        }
        GivenEntry(steps, start.value);
      } else if |starts| > 1 {
        return Some(SeveralStartNodes);
      } else {
        start := Some(steps[starts[0]].name);
      }
      error := CheckSteps(steps, dataTypes, old(start), start.value);
      forall i | 0 <= i < |steps|
        ensures OutputDeclared(dataTypes, steps[i]) <==> (steps[i].End? || steps[i].Task? ==> steps[i].output in dataTypes)
      {
        OutputsAreDeclared(dataTypes, steps[i]);
      }
    }
  }

  lemma GivenEntry(steps: seq<Step>, name: Node)
    requires name in Names(steps)
    ensures IsEntry(steps, Some(name), name)
  {
  }

  /** What the checks before the loops over the steps establish. */
  ghost predicate HeadSound(steps: seq<Step>, start: Option<Node>, entry: Node) {
    && NamesDistinct(steps)
    && (exists i :: 0 <= i < |steps| && steps[i].Start?)
    && (exists i :: 0 <= i < |steps| && steps[i].End?)
    && IsEntry(steps, start, entry)
  }

  lemma HeadSoundMeans(steps: seq<Step>, dataTypes: set<string>, start: Option<Node>, entry: Node)
    requires HeadSound(steps, start, entry)
    ensures NothingBefore(steps, dataTypes, start, 4)
    ensures (forall i :: 0 <= i < |steps| ==> TargetsKnown(steps, steps[i])) ==> NothingBefore(steps, dataTypes, start, 5)
  {
  }

  /** The two loops over the steps: targets first, then declared outputs. */
  method CheckSteps(steps: seq<Step>, dataTypes: set<string>, ghost start: Option<Node>, ghost entry: Node)
    returns (error: Option<GraphError>)
    requires HeadSound(steps, start, entry)
    ensures error.Some? ==> IsFault(steps, dataTypes, start, error.value)
                            && NothingBefore(steps, dataTypes, start, Rank(error.value))
    ensures error.None? ==> IsValid(steps, dataTypes, start, entry)
  {
    HeadSoundMeans(steps, dataTypes, start, entry);
    hide NothingBefore, TargetsKnown, OutputDeclared, NamesDistinct, IsEntry, SeveralStarts, Names;
    for i := 0 to |steps|
      invariant forall j :: 0 <= j < i ==> TargetsKnown(steps, steps[j])
    {
      TargetsKnownMeans(steps, steps[i]);
      if !(TransitionTargets(steps[i]) <= Names(steps)) {
        return Some(UnknownTarget(steps[i].name));
      }
    }
    for i := 0 to |steps|
      invariant forall j :: 0 <= j < i ==> OutputDeclared(dataTypes, steps[j])
    {
      OutputDeclaredMeans(dataTypes, steps[i]);
      var output := OutputOf(steps[i]);
      if output.Some? && output.value !in dataTypes {
        return Some(UndeclaredOutput(steps[i].name));
      }
    }
    return None;
  }

  lemma TargetsKnownMeans(steps: seq<Step>, step: Step)
    ensures TargetsKnown(steps, step) <==> TransitionTargets(step) <= Names(steps)
  {
  }

  lemma OutputDeclaredMeans(dataTypes: set<string>, step: Step)
    ensures OutputDeclared(dataTypes, step) <==> (OutputOf(step).Some? ==> OutputOf(step).value in dataTypes)
  {
  }
}
