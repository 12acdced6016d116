/**
 Value streamers that feed one queue and the consumer that reads it
 (llm_clients/streamer.py), as a state machine over their interleaved steps.
 */
module Streaming {
  import opened Wrappers

  datatype Kind = Partial | Complete | Error

  datatype Chunk = Chunk(kind: Kind, name: string, value: Option<string>)

  /** A value streamer: with a response model its content is shown as repaired JSON. */
  datatype Source = Source(name: string, structured: bool, delta: bool, buffer: string, completed: bool)

  /** Safe parsing and dumping of a JSON prefix; a library, so any function here. */
  type SafeJson = string -> string

  function SafeValue(safe: SafeJson, s: Source): string {
    if s.structured then safe(s.buffer) else s.buffer
  }

  /** The streamer's variables, with what was put and what was taken since the beginning. */
  datatype State = State(
    streamDelta: bool,
    queue: seq<Chunk>,
    active: seq<string>,
    stopped: bool,
    sources: seq<Source>,
    put: seq<Chunk>,
    taken: seq<Chunk>)

  datatype Event =
    | Open(name: string, structured: bool, delta: bool)
    | Write(i: nat, value: string)
    | Finish(i: nat)
    | Fail(message: string)
    | Next

  datatype Reply = Done | Raises | Waits | Gives(chunk: Chunk) | Ends

  /** Value streamers are only used once they exist. */
  predicate Enabled(s: State, e: Event) {
    match e
    case Write(i, _) => i < |s.sources|
    case Finish(i) => i < |s.sources|
    case _ => true
  }

  /** `list.remove`: the first occurrence. */
  function Remove(names: seq<string>, name: string): seq<string> {
    if names == [] then []
    else if names[0] == name then names[1..]
    else [names[0]] + Remove(names[1..], name)
  }

  function Put(s: State, chunk: Chunk): State {
    s.(queue := s.queue + [chunk], put := s.put + [chunk])
  }

  function Step(safe: SafeJson, s: State, e: Event): (State, Reply)
    requires Enabled(s, e)
  {
    match e
    case Open(name, structured, delta) =>
      (s.(active := s.active + [name],
          sources := s.sources + [Source(name, structured, delta || s.streamDelta, "", false)]), Done)
    case Write(i, value) =>
      var src := s.sources[i];
      if src.delta then (Put(s, Chunk(Partial, src.name, Some(value))), Done)
      else
        var written := src.(buffer := src.buffer + value);
        (Put(s.(sources := s.sources[i := written]), Chunk(Partial, src.name, Some(SafeValue(safe, written)))), Done)
    case Finish(i) =>
      var src := s.sources[i];
      if src.completed then (s, Raises)
      else
        var chunk := Chunk(Complete, src.name, if src.delta then None else Some(SafeValue(safe, src)));
        var s' := Put(s.(sources := s.sources[i := src.(completed := true)]), chunk);
        if src.name in s.active then (s'.(active := Remove(s.active, src.name)), Done) else (s', Raises)
    case Fail(message) => (Put(s, Chunk(Error, "error", Some(message))), Done)
    case Next =>
      if s.stopped then (s, Ends)
      else if s.queue == [] then (s, Waits)
      else
        var chunk := s.queue[0];
        var s' := s.(queue := s.queue[1..], taken := s.taken + [chunk]);
        if chunk.kind == Error then (s'.(stopped := true), Raises)
        else if chunk.kind == Complete && s.active == [] then (s'.(stopped := true), Gives(chunk))
        else (s', Gives(chunk))
  }

  function Initial(streamDelta: bool): State {
    State(streamDelta, [], [], false, [], [], [])
  }

  /** The state after a run; the run breaks off at an event that is not enabled. */
  function Run(safe: SafeJson, streamDelta: bool, events: seq<Event>): State {
    if events == [] then Initial(streamDelta)
    else
      var s := Run(safe, streamDelta, events[..|events| - 1]);
      var e := events[|events| - 1];
      if Enabled(s, e) then Step(safe, s, e).0 else s
  }

  // ------------------------------------------------------------------ what every run keeps

  function NameIfOpen(src: Source): seq<string> {
    if src.completed then [] else [src.name]
  }

  /** The names of the streamers that have not completed. */
  function OpenNames(sources: seq<Source>): seq<string> {
    if sources == [] then [] else NameIfOpen(sources[0]) + OpenNames(sources[1..])
  }

  ghost predicate Inv(s: State) {
    && multiset(s.active) == multiset(OpenNames(s.sources))
    && s.taken + s.queue == s.put
  }

  lemma {:induction false} OpenNamesOfParts(a: seq<Source>, b: seq<Source>)
    ensures OpenNames(a + b) == OpenNames(a) + OpenNames(b)
  {
    hide NameIfOpen;
    if a == [] {
      assert a + b == b;
    } else {
      OpenNamesOfParts(a[1..], b);
      assert (a + b)[1..] == a[1..] + b;
      Regroup(NameIfOpen(a[0]), OpenNames(a[1..]), OpenNames(b));
    }
  }

  lemma Regroup(a: seq<string>, b: seq<string>, c: seq<string>)
    ensures a + (b + c) == a + b + c
  {
  }

  lemma OpenNamesOfOne(src: Source)
    ensures OpenNames([src]) == NameIfOpen(src)
  {
  }

  /** The list of open names before, at and after streamer i. */
  lemma OpenNamesAround(sources: seq<Source>, i: nat, src: Source)
    requires i < |sources|
    ensures OpenNames(sources[i := src]) == OpenNames(sources[..i]) + NameIfOpen(src) + OpenNames(sources[i + 1..])
  {
    hide OpenNames, NameIfOpen;
    assert sources[i := src] == sources[..i] + [src] + sources[i + 1..];
    OpenNamesOfParts(sources[..i] + [src], sources[i + 1..]);
    OpenNamesOfParts(sources[..i], [src]);
    OpenNamesOfOne(src);
  }

  lemma {:induction false} RemoveTakesOne(names: seq<string>, name: string)
    requires name in names
    ensures multiset(Remove(names, name)) == multiset(names) - multiset{name}
  {
    assert names == [names[0]] + names[1..];
    if names[0] != name {
      RemoveTakesOne(names[1..], name);
    }
  }

  /** An open streamer's name is on the active list, however many streamers share it. */
  lemma OpenIsActive(s: State, i: nat)
    requires Inv(s) && i < |s.sources| && !s.sources[i].completed
    ensures s.sources[i].name in s.active
  {
    OpenNamesAround(s.sources, i, s.sources[i]);
    assert s.sources[i := s.sources[i]] == s.sources;
    assert s.sources[i].name in multiset(OpenNames(s.sources));
  }

  lemma OpenKeepsInv(s: State, src: Source)
    requires Inv(s) && !src.completed
    ensures multiset(s.active + [src.name]) == multiset(OpenNames(s.sources + [src]))
  {
    OpenNamesOfParts(s.sources, [src]);
    OpenNamesOfOne(src);
  }

  lemma WriteKeepsNames(s: State, i: nat, buffer: string)
    requires i < |s.sources|
    ensures OpenNames(s.sources[i := s.sources[i].(buffer := buffer)]) == OpenNames(s.sources)
  {
    var src := s.sources[i];
    OpenNamesAround(s.sources, i, src.(buffer := buffer));
    OpenNamesAround(s.sources, i, src);
    assert s.sources[i := src] == s.sources;
  }

  lemma OpenGives(safe: SafeJson, s: State, name: string, structured: bool, delta: bool)
    ensures Step(safe, s, Open(name, structured, delta)).0 ==
            s.(active := s.active + [name],
               sources := s.sources + [Source(name, structured, delta || s.streamDelta, "", false)])
  {
  }

  lemma FinishKeepsNames(s: State, i: nat)
    requires Inv(s) && i < |s.sources| && !s.sources[i].completed
    ensures s.sources[i].name in s.active
    ensures multiset(Remove(s.active, s.sources[i].name)) ==
            multiset(OpenNames(s.sources[i := s.sources[i].(completed := true)]))
  {
    var src := s.sources[i];
    OpenIsActive(s, i);
    RemoveTakesOne(s.active, src.name);
    OpenNamesAround(s.sources, i, src);
    assert s.sources[i := src] == s.sources;
    OpenNamesAround(s.sources, i, src.(completed := true));
  }

  /** What is put goes to the end of the queue. */
  lemma PutKeepsOrder(s: State, chunk: Chunk)
    requires s.taken + s.queue == s.put
    ensures s.taken + (s.queue + [chunk]) == s.put + [chunk]
  {
  }

  lemma StepKeepsInv(safe: SafeJson, s: State, e: Event)
    requires Inv(s) && Enabled(s, e)
    ensures Inv(Step(safe, s, e).0)
  {
    hide OpenNames, Remove;
    var s' := Step(safe, s, e).0;
    match e {
      case Open(name, structured, delta) =>
        OpenKeepsInv(s, Source(name, structured, delta || s.streamDelta, "", false));
      case Write(i, value) =>
        WriteKeepsNames(s, i, s.sources[i].buffer + value);
        PutKeepsOrder(s, s'.put[|s.put|]);
      case Finish(i) =>
        if !s.sources[i].completed {
          FinishKeepsNames(s, i);
          PutKeepsOrder(s, s'.put[|s.put|]);
        }
      case Fail(_) =>
        PutKeepsOrder(s, s'.put[|s.put|]);
      case Next =>
        if !s.stopped && s.queue != [] {
          assert (s.taken + [s.queue[0]]) + s.queue[1..] == s.taken + s.queue;
        }
    }
  }

  lemma {:induction false} RunKeepsInv(safe: SafeJson, streamDelta: bool, events: seq<Event>)
    ensures Inv(Run(safe, streamDelta, events))
  {
    if events != [] {
      RunKeepsInv(safe, streamDelta, events[..|events| - 1]);
      var s := Run(safe, streamDelta, events[..|events| - 1]);
      if Enabled(s, events[|events| - 1]) {
        StepKeepsInv(safe, s, events[|events| - 1]);
      }
    }
  }

  /** In every run: completing raises only when repeated, and nothing taken was out of order or made up. */
  lemma CompletingNeverFails(safe: SafeJson, streamDelta: bool, events: seq<Event>, i: nat)
    ensures var s := Run(safe, streamDelta, events);
            && s.taken + s.queue == s.put
            && (i < |s.sources| ==> (Step(safe, s, Finish(i)).1 == Raises <==> s.sources[i].completed))
  {
    var s := Run(safe, streamDelta, events);
    RunKeepsInv(safe, streamDelta, events);
    if i < |s.sources| && !s.sources[i].completed {
      OpenIsActive(s, i);
    }
  }

  lemma {:induction false} NoOpenNames(sources: seq<Source>)
    ensures OpenNames(sources) == [] <==> forall i :: 0 <= i < |sources| ==> sources[i].completed
  {
    if sources != [] {
      NoOpenNames(sources[1..]);
      forall i | 0 < i < |sources| ensures sources[i] == sources[1..][i - 1] {}
    }
  }

  lemma NoneActiveIff(s: State)
    requires Inv(s)
    ensures s.active == [] <==> forall i :: 0 <= i < |s.sources| ==> s.sources[i].completed
  {
    NoOpenNames(s.sources);
    assert |multiset(s.active)| == |multiset(OpenNames(s.sources))|;
  }

  /** The consumer is stopped by an error chunk, and by a complete chunk when every streamer has completed. */
  lemma EndsIff(safe: SafeJson, streamDelta: bool, events: seq<Event>, e: Event)
    requires var s := Run(safe, streamDelta, events); Enabled(s, e) && !s.stopped
    ensures var s := Run(safe, streamDelta, events);
            Step(safe, s, e).0.stopped <==>
            && e == Next && s.queue != []
            && (s.queue[0].kind == Error
                || (s.queue[0].kind == Complete && forall i :: 0 <= i < |s.sources| ==> s.sources[i].completed))
  {
    hide Run, Inv, Remove, SafeValue;
    var s := Run(safe, streamDelta, events);
    RunKeepsInv(safe, streamDelta, events);
    NoneActiveIff(s);
  }

  // ------------------------------------------------------------------ what the consumer is given

  /** What a reply hands out. */
  function Handed(reply: Reply): seq<Chunk> {
    if reply.Gives? then [reply.chunk] else []
  }

  /** Everything handed out during a run. */
  function Received(safe: SafeJson, streamDelta: bool, events: seq<Event>): seq<Chunk> {
    if events == [] then []
    else
      var s := Run(safe, streamDelta, events[..|events| - 1]);
      var e := events[|events| - 1];
      Received(safe, streamDelta, events[..|events| - 1]) + if Enabled(s, e) then Handed(Step(safe, s, e).1) else []
  }

  function WithoutErrors(chunks: seq<Chunk>): seq<Chunk> {
    if chunks == [] then []
    else
      var last := chunks[|chunks| - 1];
      WithoutErrors(chunks[..|chunks| - 1]) + if last.kind == Error then [] else [last]
  }

  lemma WithoutErrorsOfMore(chunks: seq<Chunk>, chunk: Chunk)
    ensures WithoutErrors(chunks + [chunk]) == WithoutErrors(chunks) + if chunk.kind == Error then [] else [chunk]
  {
    assert (chunks + [chunk])[..|chunks|] == chunks;
  }

  lemma HandsOutWhatItTakes(safe: SafeJson, s: State, e: Event)
    requires Enabled(s, e)
    ensures WithoutErrors(Step(safe, s, e).0.taken) == WithoutErrors(s.taken) + Handed(Step(safe, s, e).1)
  {
    hide WithoutErrors, Remove, SafeValue;
    if s.queue != [] {
      WithoutErrorsOfMore(s.taken, s.queue[0]);
    }
    assert WithoutErrors(s.taken) + [] == WithoutErrors(s.taken);
  }

  /** In every run, what has been handed out is what has been taken, errors apart. */
  lemma {:induction false} ReceivedIsTaken(safe: SafeJson, streamDelta: bool, events: seq<Event>)
    ensures Received(safe, streamDelta, events) == WithoutErrors(Run(safe, streamDelta, events).taken)
  {
    hide Step, Handed;
    if events != [] {
      var (front, e) := (events[..|events| - 1], events[|events| - 1]);
      ReceivedIsTaken(safe, streamDelta, front);
      hide WithoutErrors;
      var s := Run(safe, streamDelta, front);
      if Enabled(s, e) {
        HandsOutWhatItTakes(safe, s, e);
      }
    }
  }

  /** In every run, a reader that is not stopped gets the chunks in the order they were put, errors raised. */
  lemma ReadsInOrder(safe: SafeJson, streamDelta: bool, events: seq<Event>)
    ensures var s := Run(safe, streamDelta, events);
            var (s', reply) := Step(safe, s, Next);
            var n := |s.taken|;
            && n <= |s.put|
            && s.taken == s.put[..n]
            && (s.stopped ==> reply == Ends && s'.taken == s.taken)
            && (!s.stopped && n == |s.put| ==> reply == Waits && s'.taken == s.taken)
            && (!s.stopped && n < |s.put| ==>
                  && s'.taken == s.put[..n + 1]
                  && reply == if s.put[n].kind == Error then Raises else Gives(s.put[n]))
  {
    hide Run, Inv, Remove, SafeValue;
    var s := Run(safe, streamDelta, events);
    CompletingNeverFails(safe, streamDelta, events, 0);
    assert s.put[..|s.taken|] == s.taken && s.put[|s.taken|..] == s.queue;
    assert s.queue != [] ==> s.put[..|s.taken| + 1] == s.taken + [s.queue[0]];
  }

  // ------------------------------------------------------------------ what the streamers put

  /** The streamers opened, in order. */
  function Opens(events: seq<Event>): seq<Event> {
    if events == [] then []
    else
      var e := events[|events| - 1];
      Opens(events[..|events| - 1]) + if e.Open? then [e] else []
  }

  /** The values written to streamer i since it was opened. */
  function WrittenTo(events: seq<Event>, i: nat): seq<string> {
    if events == [] then []
    else
      var (front, e) := (events[..|events| - 1], events[|events| - 1]);
      WrittenTo(front, i) + if e.Write? && e.i == i && i < |Opens(front)| then [e.value] else []
  }

  predicate FinishedIn(events: seq<Event>, i: nat) {
    events != [] &&
    var (front, e) := (events[..|events| - 1], events[|events| - 1]);
    FinishedIn(front, i) || (e == Finish(i) && i < |Opens(front)|)
  }

  function Shown(safe: SafeJson, structured: bool, values: seq<string>): string {
    if structured then safe(Concat(values)) else Concat(values)
  }

  /** What an event is to put, judged by the events before it. */
  function PutBy(safe: SafeJson, streamDelta: bool, before: seq<Event>, e: Event): seq<Chunk> {
    var opens := Opens(before);
    match e
    case Write(i, value) =>
      if i < |opens| && opens[i].Open? then
        [Chunk(Partial, opens[i].name, Some(if opens[i].delta || streamDelta then value
                                            else Shown(safe, opens[i].structured, WrittenTo(before, i) + [value])))]
      else []
    case Finish(i) =>
      if i < |opens| && opens[i].Open? && !FinishedIn(before, i) then
        [Chunk(Complete, opens[i].name, if opens[i].delta || streamDelta then None
                                        else Some(Shown(safe, opens[i].structured, WrittenTo(before, i))))]
      else []
    case Fail(message) => [Chunk(Error, "error", Some(message))]
    case _ => []
  }

  function History(safe: SafeJson, streamDelta: bool, events: seq<Event>): seq<Chunk> {
    if events == [] then []
    else
      var (front, e) := (events[..|events| - 1], events[|events| - 1]);
      History(safe, streamDelta, front) + PutBy(safe, streamDelta, front, e)
  }

  /** Streamer i as its history says it must be. */
  ghost predicate SourceMatches(streamDelta: bool, events: seq<Event>, i: nat, src: Source) {
    && i < |Opens(events)| && Opens(events)[i].Open?
    && var open := Opens(events)[i];
    && src.name == open.name && src.structured == open.structured && src.delta == (open.delta || streamDelta)
    && (!src.delta ==> src.buffer == Concat(WrittenTo(events, i)))
    && src.completed == FinishedIn(events, i)
  }

  ghost predicate StateMatches(safe: SafeJson, streamDelta: bool, events: seq<Event>, s: State) {
    && s.streamDelta == streamDelta
    && |s.sources| == |Opens(events)|
    && (forall i :: 0 <= i < |s.sources| ==> SourceMatches(streamDelta, events, i, s.sources[i]))
    && s.put == History(safe, streamDelta, events)
  }

  lemma {:induction false} NothingBeforeOpening(events: seq<Event>, i: nat)
    requires i >= |Opens(events)|
    ensures WrittenTo(events, i) == [] && !FinishedIn(events, i)
  {
    if events != [] {
      NothingBeforeOpening(events[..|events| - 1], i);
    }
  }

  lemma ConcatMore(values: seq<string>, value: string)
    ensures Concat(values + [value]) == Concat(values) + value
  {
    assert (values + [value])[..|values|] == values;
  }

  /** What the history says after one more event. */
  lemma OneMoreEvent(before: seq<Event>, e: Event, i: nat)
    ensures Opens(before + [e]) == Opens(before) + if e.Open? then [e] else []
    ensures WrittenTo(before + [e], i) == WrittenTo(before, i) + if e.Write? && e.i == i && i < |Opens(before)| then [e.value] else []
    ensures FinishedIn(before + [e], i) <==> FinishedIn(before, i) || (e == Finish(i) && i < |Opens(before)|)
  {
    assert (before + [e])[..|before|] == before;
  }

  lemma HistoryOneMore(safe: SafeJson, streamDelta: bool, before: seq<Event>, e: Event)
    ensures History(safe, streamDelta, before + [e]) == History(safe, streamDelta, before) + PutBy(safe, streamDelta, before, e)
  {
    assert (before + [e])[..|before|] == before;
  }

  lemma SourceAfter(safe: SafeJson, s: State, e: Event, i: nat)
    requires Enabled(s, e) && i < |s.sources|
    ensures i < |Step(safe, s, e).0.sources|
    ensures var src := s.sources[i];
            Step(safe, s, e).0.sources[i] ==
            if e.Write? && e.i == i && !src.delta then src.(buffer := src.buffer + e.value)
            else if e == Finish(i) then src.(completed := true) else src
  {
    hide Remove, SafeValue;
  }

  /** A streamer that was there before an event is as the longer history says. */
  lemma SourceStep(safe: SafeJson, streamDelta: bool, before: seq<Event>, s: State, e: Event, i: nat)
    requires StateMatches(safe, streamDelta, before, s) && Enabled(s, e) && i < |s.sources|
    ensures i < |Step(safe, s, e).0.sources|
    ensures SourceMatches(streamDelta, before + [e], i, Step(safe, s, e).0.sources[i])
  {
    assert SourceMatches(streamDelta, before, i, s.sources[i]);
    hide StateMatches, Step, Opens, WrittenTo, FinishedIn, Concat;
    SourceAfter(safe, s, e, i);
    OneMoreEvent(before, e, i);
    if e.Write? {
      ConcatMore(WrittenTo(before, i), e.value);
    }
    assert WrittenTo(before, i) + [] == WrittenTo(before, i);
  }

  /** A streamer that is opened has no history. */
  lemma OpenStep(safe: SafeJson, streamDelta: bool, before: seq<Event>, s: State, e: Event)
    requires StateMatches(safe, streamDelta, before, s) && e.Open?
    ensures SourceMatches(streamDelta, before + [e], |s.sources|, Step(safe, s, e).0.sources[|s.sources|])
  {
    hide Opens, WrittenTo, FinishedIn, History;
    OneMoreEvent(before, e, |s.sources|);
    NothingBeforeOpening(before, |s.sources|);
  }

  lemma PutStep(safe: SafeJson, streamDelta: bool, before: seq<Event>, s: State, e: Event)
    requires StateMatches(safe, streamDelta, before, s) && Enabled(s, e)
    ensures Step(safe, s, e).0.put == s.put + PutBy(safe, streamDelta, before, e)
  {
    hide Opens, WrittenTo, FinishedIn, Concat, History, Remove;
    match e {
      case Write(i, value) =>
        assert SourceMatches(streamDelta, before, i, s.sources[i]);
        ConcatMore(WrittenTo(before, i), value);
      case Finish(i) =>
        assert SourceMatches(streamDelta, before, i, s.sources[i]);
      case _ =>
    }
  }

  lemma MatchesStep(safe: SafeJson, streamDelta: bool, before: seq<Event>, s: State, e: Event)
    requires StateMatches(safe, streamDelta, before, s) && Enabled(s, e)
    ensures StateMatches(safe, streamDelta, before + [e], Step(safe, s, e).0)
  {
    hide Step, PutBy, Opens, WrittenTo, FinishedIn, History, SourceMatches;
    var s' := Step(safe, s, e).0;
    PutStep(safe, streamDelta, before, s, e);
    HistoryOneMore(safe, streamDelta, before, e);
    OneMoreEvent(before, e, 0);
    SourcesKept(safe, s, e);
    if e.Open? {
      OpenStep(safe, streamDelta, before, s, e);
    }
    forall i | 0 <= i < |s'.sources| ensures SourceMatches(streamDelta, before + [e], i, s'.sources[i]) {
      if i < |s.sources| {
        SourceStep(safe, streamDelta, before, s, e, i);
      }
    }
  }

  lemma SourcesKept(safe: SafeJson, s: State, e: Event)
    requires Enabled(s, e)
    ensures var s' := Step(safe, s, e).0;
            s'.streamDelta == s.streamDelta && |s'.sources| == |s.sources| + if e.Open? then 1 else 0
  {
  }

  /** An event of a streamer that does not exist is left out. */
  lemma MatchesSkip(safe: SafeJson, streamDelta: bool, before: seq<Event>, s: State, e: Event)
    requires StateMatches(safe, streamDelta, before, s) && !Enabled(s, e)
    ensures StateMatches(safe, streamDelta, before + [e], s)
  {
    HistoryOneMore(safe, streamDelta, before, e);
    OneMoreEvent(before, e, 0);
    hide Opens, WrittenTo, FinishedIn, History, Concat;
    forall i | 0 <= i < |s.sources| ensures SourceMatches(streamDelta, before + [e], i, s.sources[i]) {
      OneMoreEvent(before, e, i);
      assert SourceMatches(streamDelta, before, i, s.sources[i]);
      assert WrittenTo(before, i) + [] == WrittenTo(before, i);
    }
  }

  /** In every run, whatever the streamers and their interleaving, exactly what the history calls for has been put. */
  lemma {:induction false} EveryStreamerPuts(safe: SafeJson, streamDelta: bool, events: seq<Event>)
    ensures StateMatches(safe, streamDelta, events, Run(safe, streamDelta, events))
  {
    hide Step;
    if events != [] {
      hide StateMatches;
      var (front, e) := (events[..|events| - 1], events[|events| - 1]);
      EveryStreamerPuts(safe, streamDelta, front);
      var s := Run(safe, streamDelta, front);
      assert front + [e] == events;
      if Enabled(s, e) {
        MatchesStep(safe, streamDelta, front, s, e);
      } else {
        MatchesSkip(safe, streamDelta, front, s, e);
      }
    }
  }

  // ------------------------------------------------------------------ what the consumer gets to see

  /** The consumer reads up to n chunks while nothing else happens. */
  function Drain(safe: SafeJson, s: State, n: nat): State
    decreases n
  {
    if n == 0 then s else Drain(safe, Step(safe, s, Next).0, n - 1)
  }

  ghost predicate NoKind(chunks: seq<Chunk>, kind: Kind) {
    forall i :: 0 <= i < |chunks| ==> chunks[i].kind != kind
  }

  lemma {:induction false} DrainStopped(safe: SafeJson, s: State, n: nat)
    requires s.stopped
    ensures Drain(safe, s, n) == s
  {
    if n > 0 {
      DrainStopped(safe, s, n - 1);
    }
  }

  /** Nothing in these chunks stops the consumer once all streamers have completed. */
  ghost predicate OnlyPartials(chunks: seq<Chunk>) {
    NoKind(chunks, Error) && NoKind(chunks, Complete)
  }

  /** Once all streamers have completed, the consumer stops at the first error or complete chunk it meets. */
  lemma {:induction false} DrainReachesEndIff(safe: SafeJson, s: State)
    requires s.active == [] && s.queue != []
    ensures Drain(safe, s, |s.queue|).queue == [] <==> !s.stopped && OnlyPartials(s.queue[..|s.queue| - 1])
    decreases |s.queue|
  {
    var s' := Step(safe, s, Next).0;
    var (rest, front) := (s.queue[1..], s.queue[..|s.queue| - 1]);
    if s.stopped {
      DrainStopped(safe, s, |s.queue|);
    } else if s.queue[0].kind != Partial {
      DrainStopped(safe, s', |s.queue| - 1);
      assert rest != [] ==> front[0] == s.queue[0];
    } else if rest != [] {
      DrainReachesEndIff(safe, s');
      var restFront := rest[..|rest| - 1];
      assert front == [s.queue[0]] + restFront;
      OneMorePartial(s.queue[0], restFront);
    }
  }

  lemma OneMorePartial(chunk: Chunk, rest: seq<Chunk>)
    requires chunk.kind == Partial
    ensures OnlyPartials([chunk] + rest) <==> OnlyPartials(rest)
  {
    assert forall i :: 0 <= i < |rest| ==> rest[i] == ([chunk] + rest)[i + 1];
  }

  /**
   With several streamers, chunks can be lost: when the last open streamer completes, the
   consumer will see everything if and only if it is still reading and nothing waits but partials.
   */
  lemma LastCompletionDecides(safe: SafeJson, s: State, i: nat)
    requires Inv(s) && i < |s.sources| && !s.sources[i].completed
    requires forall j :: 0 <= j < |s.sources| && j != i ==> s.sources[j].completed
    ensures var last := Step(safe, s, Finish(i)).0;
            Drain(safe, last, |last.queue|).queue == [] <==> !s.stopped && OnlyPartials(s.queue)
  {
    FinishPutsComplete(safe, s, i);
    AllCompletedNoneActive(safe, s, i);
    hide Inv, OpenNames, Drain, Step, NoKind;
    var last := Step(safe, s, Finish(i)).0;
    assert last.queue[..|last.queue| - 1] == s.queue;
    DrainReachesEndIff(safe, last);
  }

  lemma FinishPutsComplete(safe: SafeJson, s: State, i: nat)
    requires i < |s.sources| && !s.sources[i].completed
    ensures var last := Step(safe, s, Finish(i)).0;
            |last.queue| == |s.queue| + 1 && last.queue[..|s.queue|] == s.queue
            && last.queue[|s.queue|].kind == Complete && last.stopped == s.stopped
            && (s.sources[i].name in s.active ==> last.active == Remove(s.active, s.sources[i].name))
  {
  }

  lemma AllCompletedNoneActive(safe: SafeJson, s: State, i: nat)
    requires Inv(s) && i < |s.sources| && !s.sources[i].completed
    requires forall j :: 0 <= j < |s.sources| && j != i ==> s.sources[j].completed
    ensures Step(safe, s, Finish(i)).0.active == []
  {
    hide Step, Inv;
    FinishPutsComplete(safe, s, i);
    FinishKeepsNames(s, i);
    var sources := s.sources[i := s.sources[i].(completed := true)];
    NoOpenNames(sources);
    var rest := Remove(s.active, s.sources[i].name);
    assert |multiset(rest)| == |multiset(OpenNames(sources))| == 0;
  }

  lemma TwoOpenedOneCompleted(safe: SafeJson)
    ensures Run(safe, false, [Open("a", false, false), Open("b", false, false), Finish(0)]) ==
            State(false, [Chunk(Complete, "a", Some(""))], ["b"], false,
                  [Source("a", false, false, "", true), Source("b", false, false, "", false)],
                  [Chunk(Complete, "a", Some(""))], [])
  {
    var (e1, e2, e3) := (Open("a", false, false), Open("b", false, false), Finish(0));
    RunOfNone(safe, false);
    RunExtends(safe, false, [], e1);
    RunExtends(safe, false, [e1], e2);
    RunExtends(safe, false, [e1, e2], e3);
    hide Run;
    assert [] + [e1] == [e1] && [e1] + [e2] == [e1, e2] && [e1, e2] + [e3] == [e1, e2, e3];
    var (a, b) := (Source("a", false, false, "", false), Source("b", false, false, "", false));
    assert Run(safe, false, [e1]) == State(false, [], ["a"], false, [a], [], []);
    assert Run(safe, false, [e1, e2]) == State(false, [], ["a", "b"], false, [a, b], [], []);
    assert Remove(["a", "b"], "a") == ["b"];
  }

  /** Two streamers that complete before anything is read: the consumer stops without the second complete chunk. */
  lemma TwoStreamersCanLoseChunks(safe: SafeJson)
    ensures var s := Run(safe, false, [Open("a", false, false), Open("b", false, false), Finish(0), Finish(1)]);
            Drain(safe, s, |s.queue|).queue != []
  {
    var before := [Open("a", false, false), Open("b", false, false), Finish(0)];
    TwoOpenedOneCompleted(safe);
    RunKeepsInv(safe, false, before);
    RunExtends(safe, false, before, Finish(1));
    hide Run, Step, Drain, Inv;
    assert before + [Finish(1)] == [Open("a", false, false), Open("b", false, false), Finish(0), Finish(1)];
    var s := Run(safe, false, before);
    assert s.queue[0].kind == Complete;
    LastCompletionDecides(safe, s, 1);
  }

  lemma RunOfNone(safe: SafeJson, streamDelta: bool)
    ensures Run(safe, streamDelta, []) == Initial(streamDelta)
  {
  }

  lemma RunExtends(safe: SafeJson, streamDelta: bool, events: seq<Event>, e: Event)
    ensures var s := Run(safe, streamDelta, events);
            Run(safe, streamDelta, events + [e]) == if Enabled(s, e) then Step(safe, s, e).0 else s
  {
  }

  // ------------------------------------------------------------------ one well-behaved streamer

  /** One streamer, opened first, that writes, completes once and then keeps quiet; reads in between. */
  predicate WellBehaved(events: seq<Event>) {
    if events == [] then true
    else if |events| == 1 then events[0].Open?
    else
      var front := events[..|events| - 1];
      WellBehaved(front) &&
      match events[|events| - 1]
      case Write(i, _) => i == 0 && Finish(0) !in front
      case Finish(i) => i == 0 && Finish(0) !in front
      case Next => true
      case _ => false
  }

  /** The values written so far. */
  function Written(events: seq<Event>): seq<string> {
    if events == [] then []
    else
      var e := events[|events| - 1];
      Written(events[..|events| - 1]) + if e.Write? then [e.value] else []
  }

  function Concat(values: seq<string>): string {
    if values == [] then "" else Concat(values[..|values| - 1]) + values[|values| - 1]
  }

  /** What a consumer of the streamer is meant to see for the k-th value written, counting from 0. */
  function ExpectedPartial(safe: SafeJson, src: Source, values: seq<string>, k: nat): Chunk
    requires k < |values|
  {
    var text := Concat(values[..k + 1]);
    Chunk(Partial, src.name, Some(if src.delta then values[k] else if src.structured then safe(text) else text))
  }

  function ExpectedComplete(safe: SafeJson, src: Source, values: seq<string>): Chunk {
    var text := Concat(values);
    Chunk(Complete, src.name, if src.delta then None else Some(if src.structured then safe(text) else text))
  }

  /** What one streamer has put, and where the consumer stands. */
  ghost predicate OneStreamer(safe: SafeJson, s: State, values: seq<string>) {
    && |s.sources| == 1
    && var src := s.sources[0];
    && (!src.delta ==> src.buffer == Concat(values))
    && |s.put| == |values| + (if src.completed then 1 else 0)
    && (forall k :: 0 <= k < |values| ==> s.put[k] == ExpectedPartial(safe, src, values, k))
    && (src.completed ==> s.put[|values|] == ExpectedComplete(safe, src, values))
    && (s.stopped ==> src.completed && s.queue == [])
  }

  lemma OpeningGives(safe: SafeJson, streamDelta: bool, e: Event)
    requires e.Open?
    ensures OneStreamer(safe, Step(safe, Initial(streamDelta), e).0, [])
  {
  }

  lemma WriteGives(safe: SafeJson, s: State, values: seq<string>, value: string)
    requires OneStreamer(safe, s, values) && !s.sources[0].completed
    ensures OneStreamer(safe, Step(safe, s, Write(0, value)).0, values + [value])
  {
    var more := values + [value];
    assert more[..|more| - 1] == values;
    forall k | 0 <= k < |values| ensures ExpectedPartial(safe, s.sources[0], more, k) == ExpectedPartial(safe, s.sources[0], values, k) {
      assert more[..k + 1] == values[..k + 1];
    }
    assert more[..|more|] == more;
  }

  lemma FinishGives(safe: SafeJson, s: State, values: seq<string>)
    requires OneStreamer(safe, s, values) && !s.sources[0].completed && Inv(s)
    ensures OneStreamer(safe, Step(safe, s, Finish(0)).0, values)
  {
    OpenIsActive(s, 0);
  }

  lemma ReadGives(safe: SafeJson, s: State, values: seq<string>)
    requires OneStreamer(safe, s, values) && Inv(s)
    ensures OneStreamer(safe, Step(safe, s, Next).0, values)
  {
    if !s.stopped && s.queue != [] && s.queue[0].kind != Partial {
      var k := |s.taken|;
      assert s.put[k] == s.queue[0];
      assert k == |values|;
      assert |s.queue| == 1;
    }
  }

  /** One more event of a well-behaved streamer's run. */
  lemma OneStep(safe: SafeJson, s: State, values: seq<string>, e: Event)
    requires OneStreamer(safe, s, values) && Inv(s)
    requires match e
             case Write(i, _) => i == 0 && !s.sources[0].completed
             case Finish(i) => i == 0 && !s.sources[0].completed
             case Next => true
             case _ => false
    ensures Enabled(s, e)
    ensures OneStreamer(safe, Step(safe, s, e).0, values + if e.Write? then [e.value] else [])
    ensures Step(safe, s, e).0.sources[0].completed == (s.sources[0].completed || e.Finish?)
  {
    match e {
      case Write(i, value) => WriteGives(safe, s, values, value);
      case Finish(i) => FinishGives(safe, s, values); assert values + [] == values;
      case Next => ReadGives(safe, s, values); assert values + [] == values;
    }
  }

  lemma StoppedTookAll(safe: SafeJson, s: State, values: seq<string>)
    requires OneStreamer(safe, s, values) && Inv(s)
    ensures s.stopped ==> s.taken == s.put
  {
  }

  /** One streamer: every chunk as promised, and the consumer stops only after the last. */
  lemma {:induction false} OneStreamerDelivers(safe: SafeJson, streamDelta: bool, events: seq<Event>)
    requires WellBehaved(events) && events != []
    ensures var s := Run(safe, streamDelta, events);
            && OneStreamer(safe, s, Written(events))
            && (s.sources[0].completed <==> Finish(0) in events)
            && (s.stopped ==> s.taken == s.put)
            && Received(safe, streamDelta, events) + s.queue == s.put
  {
    var front := events[..|events| - 1];
    var e := events[|events| - 1];
    assert events == front + [e];
    RunExtends(safe, streamDelta, front, e);
    RunKeepsInv(safe, streamDelta, events);
    RunKeepsInv(safe, streamDelta, front);
    if |events| == 1 {
      OpeningGives(safe, streamDelta, e);
      assert Written(events) == [];
    } else {
      OneStreamerDelivers(safe, streamDelta, front);
      hide Inv, Run, Step, WellBehaved;
      WellBehavedStep(events);
      OneStep(safe, Run(safe, streamDelta, front), Written(front), e);
    }
    StoppedTookAll(safe, Run(safe, streamDelta, events), Written(events));
    hide WellBehaved;
    ReceivedIsTaken(safe, streamDelta, events);
    OneStreamerNoErrors(safe, Run(safe, streamDelta, events), Written(events));
  }

  lemma {:induction false} NothingLeftOut(chunks: seq<Chunk>)
    requires NoKind(chunks, Error)
    ensures WithoutErrors(chunks) == chunks
  {
    if chunks != [] {
      NothingLeftOut(chunks[..|chunks| - 1]);
    }
  }

  lemma OneStreamerPutsNoErrors(safe: SafeJson, s: State, values: seq<string>)
    requires OneStreamer(safe, s, values)
    ensures NoKind(s.put, Error)
  {
    hide Concat;
    forall k | 0 <= k < |s.put| ensures s.put[k].kind != Error {
      if k < |values| {
        assert s.put[k] == ExpectedPartial(safe, s.sources[0], values, k);
      }
    }
  }

  lemma OneStreamerNoErrors(safe: SafeJson, s: State, values: seq<string>)
    requires OneStreamer(safe, s, values) && Inv(s)
    ensures WithoutErrors(s.taken) + s.queue == s.put && NoKind(s.put, Error)
  {
    OneStreamerPutsNoErrors(safe, s, values);
    hide OneStreamer, OpenNames;
    forall i | 0 <= i < |s.taken| ensures s.taken[i] == s.put[i] {}
    NothingLeftOut(s.taken);
  }

  lemma WellBehavedStep(events: seq<Event>)
    requires WellBehaved(events) && |events| > 1
    ensures var (front, e) := (events[..|events| - 1], events[|events| - 1]);
            && WellBehaved(front)
            && match e
               case Write(i, _) => i == 0 && Finish(0) !in front
               case Finish(i) => i == 0 && Finish(0) !in front
               case Next => true
               case _ => false
  {
  }

  lemma ReadPutsNothing(safe: SafeJson, s: State)
    ensures Step(safe, s, Next).0.put == s.put
  {
  }

  lemma {:induction false} DrainKeeps(safe: SafeJson, s: State, n: nat)
    requires Inv(s)
    ensures Inv(Drain(safe, s, n)) && Drain(safe, s, n).put == s.put
    decreases n
  {
    hide Inv, Step;
    if n > 0 {
      StepKeepsInv(safe, s, Next);
      ReadPutsNothing(safe, s);
      DrainKeeps(safe, Step(safe, s, Next).0, n - 1);
    }
  }

  lemma OneCompletedQueue(safe: SafeJson, s: State, values: seq<string>)
    requires Inv(s) && OneStreamer(safe, s, values) && s.sources[0].completed
    ensures s.active == []
    ensures !s.stopped && s.queue != [] ==> OnlyPartials(s.queue[..|s.queue| - 1])
  {
    NoOpenNames(s.sources);
    assert |multiset(s.active)| == 0;
    forall i | 0 <= i < |s.queue| ensures s.queue[i] == s.put[|s.taken| + i] {}
  }

  /** n readings in a row. */
  function Reads(n: nat): seq<Event> {
    seq(n, _ => Next)
  }

  lemma {:induction false} DrainIsRun(safe: SafeJson, streamDelta: bool, events: seq<Event>, n: nat)
    ensures Run(safe, streamDelta, events + Reads(n)) == Drain(safe, Run(safe, streamDelta, events), n)
    decreases n
  {
    hide Run, Step;
    if n == 0 {
      assert events + Reads(0) == events;
    } else {
      RunExtends(safe, streamDelta, events, Next);
      DrainIsRun(safe, streamDelta, events + [Next], n - 1);
      assert events + Reads(n) == events + [Next] + Reads(n - 1);
    }
  }

  /** And once it has completed, reading on hands out everything. */
  lemma OneStreamerIsDelivered(safe: SafeJson, streamDelta: bool, events: seq<Event>)
    requires WellBehaved(events) && Finish(0) in events
    ensures var s := Run(safe, streamDelta, events);
            && Drain(safe, s, |s.queue|).taken == s.put
            && Received(safe, streamDelta, events + Reads(|s.queue|)) == s.put
  {
    OneStreamerDelivers(safe, streamDelta, events);
    RunKeepsInv(safe, streamDelta, events);
    var s := Run(safe, streamDelta, events);
    hide Run, Received, WellBehaved, Written;
    OneCompletedQueue(safe, s, Written(events));
    OneStreamerNoErrors(safe, s, Written(events));
    hide OneStreamer;
    DrainKeeps(safe, s, |s.queue|);
    if !s.stopped && s.queue != [] {
      DrainReachesEndIff(safe, s);
    }
    var end := Drain(safe, s, |s.queue|);
    assert end.queue == [] ==> end.taken + [] == end.put;
    hide Drain;
    DrainIsRun(safe, streamDelta, events, |s.queue|);
    ReceivedIsTaken(safe, streamDelta, events + Reads(|s.queue|));
    NothingLeftOut(s.put);
  }
}
