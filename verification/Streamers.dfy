/** The classes of llm_clients/streamer.py; each method takes one step of the state machine. */
module Streamers {
  import opened Wrappers
  import opened Streaming

  ghost function SourceOf(v: ValueStreamer): Source
    reads v
  {
    Source(v.name, v.structured, v.delta, v.buffer, v.completed)
  }

  ghost function SourcesOf(members: seq<ValueStreamer>): (sources: seq<Source>)
    reads members
    ensures |sources| == |members|
    ensures forall i :: 0 <= i < |members| ==> sources[i] == SourceOf(members[i])
  {
    if members == [] then [] else SourcesOf(members[..|members| - 1]) + [SourceOf(members[|members| - 1])]
  }

  ghost predicate Apart(members: seq<ValueStreamer>, owner: Streamer) {
    && (forall i, j :: 0 <= i < j < |members| ==> members[i] != members[j])
    && (forall i :: 0 <= i < |members| ==> members[i].owner == owner)
  }

  lemma AddedApart(members: seq<ValueStreamer>, v: ValueStreamer, owner: Streamer)
    requires Apart(members, owner) && v !in members && v.owner == owner
    ensures Apart(members + [v], owner)
  {
  }

  class Streamer {
    const streamDelta: bool
    const safe: SafeJson
    var queue: seq<Chunk>
    var active: seq<string>
    var stopped: bool
    ghost var members: seq<ValueStreamer>
    ghost var put: seq<Chunk>
    ghost var taken: seq<Chunk>

    ghost function Abs(): State
      reads this, members
    {
      State(streamDelta, queue, active, stopped, SourcesOf(members), put, taken)
    }

    /** The value streamers handed out are different objects and report to this streamer. */
    ghost predicate Valid()
      reads this, members
    {
      Apart(members, this) && Inv(Abs())
    }

    constructor (safe: SafeJson, streamDelta: bool)
      ensures Valid() && this.safe == safe && Abs() == Initial(streamDelta)
    {
      this.safe, this.streamDelta := safe, streamDelta;
      queue, active, stopped := [], [], false;
      members, put, taken := [], [], [];
    }

    method GetValueStreamer(name: string, structured: bool, delta: bool) returns (v: ValueStreamer)
      requires Valid()
      modifies this
      ensures Valid() && fresh(v) && members == old(members) + [v]
      ensures Abs() == Step(safe, old(Abs()), Open(name, structured, delta)).0
    {
      hide Inv, Apart, Step;
      ghost var before := Abs();
      OpenGives(safe, before, name, structured, delta);
      StepKeepsInv(safe, before, Open(name, structured, delta));
      active := active + [name];
      v := new ValueStreamer(this, name, structured, delta || streamDelta);
      members := members + [v];
      assert SourcesOf(old(members)) == before.sources;
      AddedApart(old(members), v, this);
      assert members[..|members| - 1] == old(members);
      assert SourcesOf(members) == before.sources + [SourceOf(v)];
    }

    method StreamError(message: string)
      requires Valid()
      modifies this
      ensures Valid() && members == old(members)
      ensures Abs() == Step(safe, old(Abs()), Fail(message)).0
    {
      hide Inv, Apart, SourcesOf;
      StepKeepsInv(safe, Abs(), Fail(message));
      var chunk := Chunk(Error, "error", Some(message));
      queue, put := queue + [chunk], put + [chunk];
    }

    /** `__anext__`; waiting for an empty queue (or timing out) leaves everything as it is. */
    method GetNext() returns (reply: Reply)
      requires Valid()
      modifies this
      ensures Valid() && members == old(members)
      ensures (Abs(), reply) == Step(safe, old(Abs()), Next)
    {
      hide Inv, Apart, SourcesOf;
      StepKeepsInv(safe, Abs(), Next);
      if stopped {
        return Ends;
      }
      if queue == [] {
        return Waits;
      }
      ghost var sources := Abs().sources;
      var chunk := queue[0];
      queue, taken := queue[1..], taken + [chunk];
      stopped := chunk.kind == Error || (chunk.kind == Complete && |active| == 0);
      assert Abs().sources == sources;
      reply := if chunk.kind == Error then Raises else Gives(chunk);
    }
  }

  class ValueStreamer {
    const owner: Streamer
    const name: string
    const structured: bool
    const delta: bool
    var buffer: string
    var completed: bool

    constructor (owner: Streamer, name: string, structured: bool, delta: bool)
      ensures this.owner == owner && this.name == name && this.structured == structured && this.delta == delta
      ensures buffer == "" && !completed
    {
      this.owner, this.name, this.structured, this.delta := owner, name, structured, delta;
      buffer, completed := "", false;
    }

    method GetSafeValue() returns (value: string)
      ensures value == SafeValue(owner.safe, SourceOf(this))
    {
      value := if structured then owner.safe(buffer) else buffer;
    }

    method StreamPartial(value: string, ghost i: nat)
      requires owner.Valid() && i < |owner.members| && owner.members[i] == this
      modifies this, owner
      ensures owner.Valid() && owner.members == old(owner.members)
      ensures owner.Abs() == Step(owner.safe, old(owner.Abs()), Write(i, value)).0
    {
      hide Inv;
      ghost var before := owner.Abs();
      StepKeepsInv(owner.safe, before, Write(i, value));
      var shown := value;
      if !delta {
        buffer := buffer + value;
        shown := GetSafeValue();
      }
      var chunk := Chunk(Partial, name, Some(shown));
      owner.queue, owner.put := owner.queue + [chunk], owner.put + [chunk];
      assert owner.Abs().sources == Step(owner.safe, before, Write(i, value)).0.sources;
    }

    /** Raises if called twice; the name is then not removed a second time. */
    method StreamComplete(ghost i: nat) returns (raises: bool)
      requires owner.Valid() && i < |owner.members| && owner.members[i] == this
      modifies this, owner
      ensures owner.Valid() && owner.members == old(owner.members)
      ensures owner.Abs() == Step(owner.safe, old(owner.Abs()), Finish(i)).0
      ensures raises == old(completed)
    {
      hide Inv;
      ghost var before := owner.Abs();
      StepKeepsInv(owner.safe, before, Finish(i));
      if completed {
        return true;
      }
      OpenIsActive(before, i);
      completed := true;
      var value := None;
      if !delta {
        var shown := GetSafeValue();
        value := Some(shown);
      }
      var chunk := Chunk(Complete, name, value);
      owner.queue, owner.put := owner.queue + [chunk], owner.put + [chunk];
      owner.active := Remove(owner.active, name);
      assert owner.Abs().sources == Step(owner.safe, before, Finish(i)).0.sources;
      return false;
    }
  }
}
