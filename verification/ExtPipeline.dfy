/**
  The extension pipeline of a query: every record passes one at a time through stateful
  steps, and at the end of the query each step's leftover is flushed through the steps after
  it. The steps themselves are foreign code, so each is an arbitrary stateful behaviour.
*/
module ExtPipeline {

  datatype Rec = Rec(entry: string, computed: map<string, string>, content: string)

  /** The outcome of an operation that an extension can fail. */
  datatype Outcome<+T> = Ok(value: T) | Err(code: int)

  /** What a committer hands out: nothing yet, a record, or an error. */
  datatype Commit = Nothing | Ready(rec: Rec) | Broken(code: int)

  /** What a condition filter lets through. */
  datatype Filtered = Keep(recs: seq<Rec>) | Drop | Rejected(code: int)

  /** An extension step: how its processor, filter and committer react in a given state. */
  datatype Behaviour<!S> = Behaviour(
    process: (S, Rec) -> (S, Outcome<seq<Outcome<Rec>>>),
    filter: (S, Rec) -> (S, Filtered),
    commit: (S, Rec) -> (S, Commit),
    flush: S -> (S, Commit))

  datatype Step<!S> = Step(processor: S, filter: S, committer: S, behaviour: Behaviour<S>)

  // ----- one step -----

  /** A committed record inherits the computed labels it does not set itself. */
  function Inherit(rec: Rec, computed: map<string, string>): (r: Rec)
    ensures r.entry == rec.entry && r.content == rec.content && r.computed.Keys == rec.computed.Keys + computed.Keys
    ensures forall k :: k in rec.computed ==> r.computed[k] == rec.computed[k]
    ensures forall k :: k in computed && k !in rec.computed ==> r.computed[k] == computed[k]
  {
    rec.(computed := computed + rec.computed)
  }

  function CommitAll<S>(step: Step<S>, recs: seq<Rec>): (Step<S>, Outcome<seq<Rec>>)
    decreases |recs|
  {
    if recs == [] then (step, Ok([]))
    else
      var (c, committed) := step.behaviour.commit(step.committer, recs[0]);
      var next := step.(committer := c);
      match committed
      case Broken(code) => (next, Err(code))
      case Nothing => CommitAll(next, recs[1..])
      case Ready(rec) =>
        var out := if rec.entry == "" then [] else [Inherit(rec, recs[0].computed)];
        var (last, rest) := CommitAll(next, recs[1..]);
        (last, Prepend(out, rest))
  }

  function Prepend<T>(head: seq<T>, r: Outcome<seq<T>>): Outcome<seq<T>> {
    if r.Ok? then Ok(head + r.value) else r
  }

  /** The items of a processed record's stream, filtered and committed. */
  function ItemsAll<S>(step: Step<S>, items: seq<Outcome<Rec>>): (Step<S>, Outcome<seq<Rec>>)
    decreases |items|
  {
    if items == [] then (step, Ok([]))
    else if items[0].Err? then (step, Err(items[0].code))
    else
      var (f, filtered) := step.behaviour.filter(step.filter, items[0].value);
      var next := step.(filter := f);
      match filtered
      case Rejected(code) => (next, Err(code))
      case Drop => ItemsAll(next, items[1..])
      case Keep(recs) =>
        var (committed, out) := CommitAll(next, recs);
        if out.Err? then (committed, out)
        else
          var (last, rest) := ItemsAll(committed, items[1..]);
          (last, Prepend(out.value, rest))
  }

  function StepOne<S>(step: Step<S>, input: Rec): (Step<S>, Outcome<seq<Rec>>) {
    var (p, stream) := step.behaviour.process(step.processor, input);
    var next := step.(processor := p);
    if stream.Err? then (next, Err(stream.code)) else ItemsAll(next, stream.value)
  }

  /** `process_pipeline_step` */
  function StepAll<S>(step: Step<S>, inputs: seq<Rec>): (Step<S>, Outcome<seq<Rec>>)
    decreases |inputs|
  {
    if inputs == [] then (step, Ok([]))
    else
      var (next, out) := StepOne(step, inputs[0]);
      if out.Err? then (next, out)
      else
        var (last, rest) := StepAll(next, inputs[1..]);
        (last, Prepend(out.value, rest))
  }

  function FlushStep<S>(step: Step<S>): (Step<S>, Commit) {
    var (c, committed) := step.behaviour.flush(step.committer);
    (step.(committer := c), committed)
  }

  // ----- the pipeline -----

  /** The inputs go through all the steps, one step after the other. */
  function Pipe<S>(steps: seq<Step<S>>, inputs: seq<Rec>): (r: (seq<Step<S>>, Outcome<seq<Rec>>))
    ensures |r.0| == |steps|
  {
    if steps == [] then (steps, Ok(inputs))
    else
      var (first, out) := StepAll(steps[0], inputs);
      if out.Err? then ([first] + steps[1..], out)
      else
        var (rest, result) := Pipe(steps[1..], out.value);
        ([first] + rest, result)
  }

  /** Records fed one at a time, as a query delivers them. */
  function Feed<S>(steps: seq<Step<S>>, recs: seq<Rec>): (r: (seq<Step<S>>, Outcome<seq<Rec>>))
    ensures |r.0| == |steps|
    decreases |recs|
  {
    if recs == [] then (steps, Ok([]))
    else
      var (next, out) := Pipe(steps, [recs[0]]);
      if out.Err? then (next, out)
      else
        var (last, rest) := Feed(next, recs[1..]);
        (last, Prepend(out.value, rest))
  }

  function Leftover(c: Commit): seq<Rec> {
    if c.Ready? then [c.rec] else []
  }

  /** `flush_pipeline`: each step's leftover goes through the steps after it, then the next step is flushed. */
  function Flush<S>(steps: seq<Step<S>>): (r: (seq<Step<S>>, Outcome<seq<Rec>>))
    ensures |r.0| == |steps|
    decreases |steps|
  {
    if steps == [] then (steps, Ok([]))
    else
      var (first, left) := FlushStep(steps[0]);
      if left.Broken? then ([first] + steps[1..], Err(left.code))
      else
        var (rest, out) := Pipe(steps[1..], Leftover(left));
        if out.Err? then ([first] + rest, out)
        else
          var (last, tail) := Flush(rest);
          ([first] + last, Prepend(out.value, tail))
  }

  // ----- whole streams -----

  /** A step as a function on whole streams: everything it makes of the inputs, then its leftover. */
  function WholeStep<S>(step: Step<S>, inputs: seq<Rec>): Outcome<seq<Rec>> {
    var (last, out) := StepAll(step, inputs);
    if out.Err? then out
    else
      var left := FlushStep(last).1;
      if left.Broken? then Err(left.code) else Ok(out.value + Leftover(left))
  }

  /** The steps composed as functions on whole streams. */
  function Compose<S>(steps: seq<Step<S>>, inputs: seq<Rec>): Outcome<seq<Rec>>
    decreases |steps|
  {
    if steps == [] then Ok(inputs)
    else
      var mid := WholeStep(steps[0], inputs);
      if mid.Err? then mid else Compose(steps[1..], mid.value)
  }

  lemma PrependTwice<T>(a: seq<T>, b: seq<T>, r: Outcome<seq<T>>)
    ensures Prepend(a, Prepend(b, r)) == Prepend(a + b, r)
  {
    if r.Ok? { assert a + (b + r.value) == (a + b) + r.value; }
  }

  lemma PrependNothing<T>(r: Outcome<seq<T>>)
    ensures Prepend([], r) == r
  {
    if r.Ok? { assert [] + r.value == r.value; }
  }

  /** A step does not care how its inputs are cut into pieces. */
  lemma {:induction false} StepAllAppend<S>(step: Step<S>, a: seq<Rec>, b: seq<Rec>)
    ensures var (mid, out) := StepAll(step, a);
            StepAll(step, a + b) ==
              if out.Err? then (mid, out)
              else var (last, rest) := StepAll(mid, b); (last, Prepend(out.value, rest))
    decreases |a|
  {
    hide StepOne;
    if a == [] {
      assert a + b == b;
      PrependNothing(StepAll(step, b).1);
    } else {
      assert (a + b)[1..] == a[1..] + b;
      var (next, out) := StepOne(step, a[0]);
      if out.Ok? {
        StepAllAppend(next, a[1..], b);
        var (mid, rest) := StepAll(next, a[1..]);
        if rest.Ok? { PrependTwice(out.value, rest.value, StepAll(mid, b).1); }
      }
    }
  }

  /** Without errors, neither does the pipeline. */
  lemma {:induction false} PipeAppend<S>(steps: seq<Step<S>>, a: seq<Rec>, b: seq<Rec>)
    requires Pipe(steps, a).1.Ok? && Pipe(Pipe(steps, a).0, b).1.Ok?
    ensures var (mid, out) := Pipe(steps, a);
            var (last, rest) := Pipe(mid, b);
            Pipe(steps, a + b) == (last, Ok(out.value + rest.value))
    decreases |steps|
  {
    hide StepAll;
    if steps != [] {
      var (first, out) := StepAll(steps[0], a);
      var (rest, result) := Pipe(steps[1..], out.value);
      var mid := [first] + rest;
      assert Pipe(steps, a).0 == mid && mid[0] == first && mid[1..] == rest;
      var (first', out') := StepAll(first, b);
      StepAllAppend(steps[0], a, b);
      PipeAppend(steps[1..], out.value, out'.value);
    }
  }

  lemma {:induction false} PipeNothing<S>(steps: seq<Step<S>>)
    ensures Pipe(steps, []) == (steps, Ok([]))
    decreases |steps|
  {
    if steps != [] {
      PipeNothing(steps[1..]);
      assert [steps[0]] + steps[1..] == steps;
    }
  }

  /** Feeding records one at a time is feeding them all at once. */
  lemma {:induction false} FeedIsPipe<S>(steps: seq<Step<S>>, recs: seq<Rec>)
    requires Feed(steps, recs).1.Ok?
    ensures Pipe(steps, recs) == Feed(steps, recs)
    decreases |recs|
  {
    hide Pipe;
    if recs == [] {
      PipeNothing(steps);
    } else {
      var next := Pipe(steps, [recs[0]]).0;
      FeedIsPipe(next, recs[1..]);
      assert recs == [recs[0]] + recs[1..];
      PipeAppend(steps, [recs[0]], recs[1..]);
    }
  }

  lemma {:induction false} PipeThenFlush<S>(steps: seq<Step<S>>, inputs: seq<Rec>)
    requires Pipe(steps, inputs).1.Ok? && Flush(Pipe(steps, inputs).0).1.Ok?
    ensures Compose(steps, inputs) == Ok(Pipe(steps, inputs).1.value + Flush(Pipe(steps, inputs).0).1.value)
    decreases |steps|
  {
    hide StepAll, FlushStep, Pipe, Flush, Compose;
    if steps == [] {
      NoSteps(steps, inputs);
    } else {
      var (first, mid) := StepAll(steps[0], inputs);
      PipeParts(steps, inputs);
      var (rest, out) := Pipe(steps[1..], mid.value);
      var fed := [first] + rest;
      assert fed[0] == first && fed[1..] == rest;
      var left := FlushStep(first).1;
      FlushParts(fed);
      var (rest', more) := Pipe(rest, Leftover(left));
      PipeAppend(steps[1..], mid.value, Leftover(left));
      PipeThenFlush(steps[1..], mid.value + Leftover(left));
      ComposeParts(steps, inputs);
      var tail := Flush(rest').1;
      assert out.value + (more.value + tail.value) == (out.value + more.value) + tail.value;
    }
  }

  lemma NoSteps<S>(steps: seq<Step<S>>, inputs: seq<Rec>)
    requires steps == []
    ensures Pipe(steps, inputs) == (steps, Ok(inputs)) && Flush(steps) == (steps, Ok([])) && Compose(steps, inputs) == Ok(inputs)
    ensures inputs + [] == inputs
  {
  }

  lemma PipeParts<S>(steps: seq<Step<S>>, inputs: seq<Rec>)
    requires steps != [] && Pipe(steps, inputs).1.Ok?
    ensures var (first, mid) := StepAll(steps[0], inputs);
            && mid.Ok?
            && Pipe(steps, inputs) == ([first] + Pipe(steps[1..], mid.value).0, Pipe(steps[1..], mid.value).1)
  {
    hide StepAll;
    var (first, mid) := StepAll(steps[0], inputs);
    assert mid.Err? ==> Pipe(steps, inputs).1 == mid;
  }

  lemma ComposeParts<S>(steps: seq<Step<S>>, inputs: seq<Rec>)
    requires steps != [] && StepAll(steps[0], inputs).1.Ok? && !FlushStep(StepAll(steps[0], inputs).0).1.Broken?
    ensures var (first, mid) := StepAll(steps[0], inputs);
            Compose(steps, inputs) == Compose(steps[1..], mid.value + Leftover(FlushStep(first).1))
  {
    hide StepAll, FlushStep;
  }

  /** A flush that succeeds is made of a flushed step, its way down, and the flush of the rest. */
  lemma FlushParts<S>(steps: seq<Step<S>>)
    requires steps != [] && Flush(steps).1.Ok?
    ensures var left := FlushStep(steps[0]).1;
            var (rest, out) := Pipe(steps[1..], Leftover(left));
            && !left.Broken? && out.Ok? && Flush(rest).1.Ok?
            && Flush(steps).1.value == out.value + Flush(rest).1.value
  {
    hide FlushStep, Pipe;
  }

  /**
    On every run without errors, for any number of steps with any stateful behaviour: feeding
    the records one at a time and flushing at the end gives exactly the stream that composing
    the steps' whole-stream functions gives.
  */
  lemma PipelineIsComposition<S>(steps: seq<Step<S>>, recs: seq<Rec>)
    requires Feed(steps, recs).1.Ok? && Flush(Feed(steps, recs).0).1.Ok?
    ensures Compose(steps, recs) == Ok(Feed(steps, recs).1.value + Flush(Feed(steps, recs).0).1.value)
  {
    hide Feed, Flush, Pipe, Compose;
    FeedIsPipe(steps, recs);
    PipeThenFlush(steps, recs);
  }

  // ----- the code -----

  /** What one call returns: nothing, or a batch of records and errors. */
  datatype Emission = Silent | Emit(items: seq<Outcome<Rec>>)

  function AsItems(recs: seq<Rec>): (r: seq<Outcome<Rec>>)
    ensures |r| == |recs| && forall i :: 0 <= i < |recs| ==> r[i] == Ok(recs[i])
  {
    seq(|recs|, i requires 0 <= i < |recs| => Ok(recs[i]))
  }

  /** The records of a successful call, or its error alone. */
  function Emitted(out: Outcome<seq<Rec>>): Emission {
    if out.Err? then Emit([Err(out.code)])
    else if out.value == [] then Silent
    else Emit(AsItems(out.value))
  }

  /** What the query delivers next: a record, an error, the end of its content, or nothing because its channel is closed. */
  datatype Incoming = Got(rec: Rec) | Failed(code: int) | NoContent | Closed

  const NO_CONTENT: int := 204

  class QueryContext<!S> {
    var steps: seq<Step<S>>

    constructor (steps: seq<Step<S>>)
      ensures this.steps == steps
    {
      this.steps := steps;
    }

    /** One step over all its inputs, in order. */
    method ProcessPipelineStep(index: nat, inputs: seq<Rec>) returns (outputs: Outcome<seq<Rec>>)
      requires index < |steps|
      modifies this
      ensures var (last, out) := StepAll(old(steps)[index], inputs);
              steps == old(steps)[index := last] && outputs == out
    {
      hide StepOne;
      var collected: seq<Rec> := [];
      ghost var goal := StepAll(steps[index], inputs);
      assert inputs[0..] == inputs;
      PrependNothing(goal.1);
      for i := 0 to |inputs|
        invariant |steps| == |old(steps)| && steps == old(steps)[index := steps[index]]
        invariant goal == (var (last, rest) := StepAll(steps[index], inputs[i..]); (last, Prepend(collected, rest)))
      {
        assert inputs[i..][1..] == inputs[i + 1..] && inputs[i..][0] == inputs[i];
        var out := ProcessInput(index, inputs[i]);
        assert steps == old(steps)[index := steps[index]];
        if out.Err? { return out; }
        PrependTwice(collected, out.value, StepAll(steps[index], inputs[i + 1..]).1);
        collected := collected + out.value;
      }
      assert inputs[|inputs|..] == [];
      assert collected + [] == collected;
      outputs := Ok(collected);
    }

    /** One input: its stream is filtered and committed item by item. */
    method ProcessInput(index: nat, input: Rec) returns (outputs: Outcome<seq<Rec>>)
      requires index < |steps|
      modifies this
      ensures var (last, out) := StepOne(old(steps)[index], input);
              steps == old(steps)[index := last] && outputs == out
    {
      hide CommitAll;
      var (p, stream) := steps[index].behaviour.process(steps[index].processor, input);
      steps := steps[index := steps[index].(processor := p)];
      if stream.Err? { return Err(stream.code); }
      var items := stream.value;
      var collected: seq<Rec> := [];
      ghost var goal := ItemsAll(steps[index], items);
      assert items[0..] == items;
      PrependNothing(goal.1);
      for i := 0 to |items|
        invariant |steps| == |old(steps)| && steps == old(steps)[index := steps[index]]
        invariant goal == (var (last, rest) := ItemsAll(steps[index], items[i..]); (last, Prepend(collected, rest)))
      {
        assert items[i..][1..] == items[i + 1..] && items[i..][0] == items[i];
        if items[i].Err? { return Err(items[i].code); }
        var (f, filtered) := steps[index].behaviour.filter(steps[index].filter, items[i].value);
        steps := steps[index := steps[index].(filter := f)];
        assert steps == old(steps)[index := steps[index]];
        if filtered.Rejected? { return Err(filtered.code); }
        if filtered.Keep? {
          var out := CommitRecords(index, filtered.recs);
          assert steps == old(steps)[index := steps[index]];
          if out.Err? { return out; }
          PrependTwice(collected, out.value, ItemsAll(steps[index], items[i + 1..]).1);
          collected := collected + out.value;
        }
      }
      assert items[|items|..] == [];
      assert collected + [] == collected;
      outputs := Ok(collected);
    }

    /** The filtered records are committed one by one; a record without an entry name is skipped. */
    method CommitRecords(index: nat, recs: seq<Rec>) returns (outputs: Outcome<seq<Rec>>)
      requires index < |steps|
      modifies this
      ensures var (last, out) := CommitAll(old(steps)[index], recs);
              steps == old(steps)[index := last] && outputs == out
    {
      var collected: seq<Rec> := [];
      ghost var goal := CommitAll(steps[index], recs);
      assert recs[0..] == recs;
      PrependNothing(goal.1);
      for i := 0 to |recs|
        invariant |steps| == |old(steps)| && steps == old(steps)[index := steps[index]]
        invariant goal == (var (last, rest) := CommitAll(steps[index], recs[i..]); (last, Prepend(collected, rest)))
      {
        assert recs[i..][1..] == recs[i + 1..] && recs[i..][0] == recs[i];
        var (c, committed) := steps[index].behaviour.commit(steps[index].committer, recs[i]);
        steps := steps[index := steps[index].(committer := c)];
        assert steps == old(steps)[index := steps[index]];
        match committed
        case Broken(code) =>
          return Err(code);
        case Nothing =>
        case Ready(rec) =>
          var out := if rec.entry == "" then [] else [Inherit(rec, recs[i].computed)];
          PrependTwice(collected, out, CommitAll(steps[index], recs[i + 1..]).1);
          collected := collected + out;
      }
      assert recs[|recs|..] == [];
      assert collected + [] == collected;
      outputs := Ok(collected);
    }

    /** The inputs go through the steps from `first` on. */
    method RunFrom(first: nat, records: seq<Rec>) returns (outputs: Outcome<seq<Rec>>)
      requires first <= |steps|
      modifies this
      ensures var (rest, out) := Pipe(old(steps)[first..], records);
              steps == old(steps)[..first] + rest && outputs == out
    {
      hide StepAll, Pipe;
      var inputs := records;
      ghost var goal := Pipe(steps[first..], records);
      Behind(steps[first..first], goal);
      for idx := first to |steps|
        invariant |steps| == |old(steps)| && steps[..first] == old(steps)[..first]
        invariant goal == (steps[first..idx] + Pipe(steps[idx..], inputs).0, Pipe(steps[idx..], inputs).1)
      {
        ghost var before := steps;
        var next := ProcessPipelineStep(idx, inputs);
        PipeStep(before, steps, first, idx, inputs);
        if next.Err? {
          assert steps == steps[..first] + steps[first..];
          return next;
        }
        inputs := next.value;
      }
      assert steps[|steps|..] == [];
      PipeEnd(inputs, steps[|steps|..]);
      assert steps == steps[..first] + (steps[first..] + []);
      outputs := Ok(inputs);
    }

    /** A record goes through the whole pipeline. */
    method ProcessPipelineRecord(record: Rec) returns (r: Emission)
      modifies this
      ensures var (last, out) := Pipe(old(steps), [record]);
              steps == last && r == Emitted(out)
    {
      hide Pipe;
      assert steps[0..] == steps && steps[..0] == [];
      var out := RunFrom(0, [record]);
      assert steps == Pipe(old(steps), [record]).0;
      r := Emitted(out);
    }

    /** At the end of the query every step is flushed in turn. */
    method FlushPipeline() returns (r: Emission)
      modifies this
      ensures var (last, out) := Flush(old(steps));
              steps == last && r == Emitted(out)
    {
      hide Pipe, FlushStep, Flush, Emitted;
      var flushed: seq<Rec> := [];
      ghost var goal := Flush(steps);
      assert steps[0..] == steps;
      PrependNothing(goal.1);
      Behind([], goal);
      for idx := 0 to |steps|
        invariant |steps| == |old(steps)|
        invariant goal == (steps[..idx] + Flush(steps[idx..]).0, Prepend(flushed, Flush(steps[idx..]).1))
      {
        ghost var before := steps;
        var (next, left) := FlushStep(steps[idx]);
        steps := steps[idx := next];
        if left.Broken? {
          FlushStops(before, steps, idx);
          return Emitted(Err(left.code));
        }
        PipeNothing(steps[idx + 1..]);
        ghost var flushedOne := steps;
        if left.Ready? {
          var out := RunFrom(idx + 1, [left.rec]);
          FlushGoesOn(before, flushedOne, steps, idx, out);
          if out.Err? {
            return Emitted(out);
          }
          PrependTwice(flushed, out.value, Flush(steps[idx + 1..]).1);
          flushed := flushed + out.value;
        } else {
          assert steps == steps[..idx + 1] + steps[idx + 1..];
          FlushGoesOn(before, flushedOne, steps, idx, Ok([]));
          PrependNothing(Flush(steps[idx + 1..]).1);
        }
      }
      assert steps[|steps|..] == [] && steps[..|steps|] + [] == steps;
      FlushEnd(steps[|steps|..]);
      assert flushed + [] == flushed;
      r := Emitted(Ok(flushed));
    }

    /** The record path and the two ends of a query of `fetch_and_process_record`. */
    method FetchAndProcess(incoming: Incoming) returns (r: Emission)
      modifies this
      ensures (steps, r) == Respond(old(steps), incoming)
      ensures incoming.Failed? ==> steps == old(steps) && r == Emit([Err(incoming.code)])
      ensures incoming.Closed? ==> steps == old(steps) && r == Emit([Err(204)])
      ensures incoming.NoContent? ==> r.Emit? && r.items != [] && r.items[|r.items| - 1] == Err(204)
    {
      hide Pipe, Flush;
      match incoming
      case Got(rec) =>
        r := ProcessPipelineRecord(rec);
      case Failed(code) =>
        r := Emit([Err(code)]);
      case Closed =>
        r := Emit([Err(NO_CONTENT)]);
      case NoContent =>
        var flushed := FlushPipeline();
        r := if flushed.Emit? then Emit(flushed.items + [Err(NO_CONTENT)]) else Emit([Err(NO_CONTENT)]);
    }
  }

  lemma Behind<S>(nothing: seq<Step<S>>, goal: (seq<Step<S>>, Outcome<seq<Rec>>))
    requires nothing == []
    ensures goal == (nothing + goal.0, goal.1)
  {
    assert nothing + goal.0 == goal.0;
  }

  lemma PipeEnd<S>(inputs: seq<Rec>, steps: seq<Step<S>>)
    requires steps == []
    ensures Pipe(steps, inputs) == (steps, Ok(inputs))
  {
  }

  lemma FlushEnd<S>(steps: seq<Step<S>>)
    requires steps == []
    ensures Flush(steps) == (steps, Ok([]))
  {
  }

  /** One round of the loop over the steps. */
  lemma PipeStep<S>(before: seq<Step<S>>, after: seq<Step<S>>, first: nat, idx: nat, inputs: seq<Rec>)
    requires first <= idx < |before|
    requires after == before[idx := StepAll(before[idx], inputs).0]
    ensures after[..first] == before[..first]
    ensures var out := StepAll(before[idx], inputs).1;
            (before[first..idx] + Pipe(before[idx..], inputs).0, Pipe(before[idx..], inputs).1) ==
            if out.Err? then (after[first..], out)
            else (after[first..idx + 1] + Pipe(after[idx + 1..], out.value).0, Pipe(after[idx + 1..], out.value).1)
  {
    hide StepAll;
    var s, rest := before[idx..], before[idx + 1..];
    assert s[0] == before[idx] && s[1..] == rest && after[idx + 1..] == rest;
    assert after[first..idx + 1] == before[first..idx] + [after[idx]];
    var (next, out) := StepAll(before[idx], inputs);
    if out.Err? {
      assert after[first..] == before[first..idx] + ([next] + rest);
    } else {
      var piped := Pipe(rest, out.value);
      assert before[first..idx] + ([next] + piped.0) == (before[first..idx] + [next]) + piped.0;
    }
  }

  lemma FlushStops<S>(before: seq<Step<S>>, after: seq<Step<S>>, idx: nat)
    requires idx < |before| && after == before[idx := FlushStep(before[idx]).0] && FlushStep(before[idx]).1.Broken?
    ensures (before[..idx] + Flush(before[idx..]).0, Flush(before[idx..]).1) == (after, Err(FlushStep(before[idx]).1.code))
  {
    hide FlushStep, Pipe;
    var s := before[idx..];
    assert s[0] == before[idx] && s[1..] == before[idx + 1..];
    assert after == before[..idx] + ([after[idx]] + before[idx + 1..]);
  }

  lemma FlushGoesOn<S>(before: seq<Step<S>>, one: seq<Step<S>>, after: seq<Step<S>>, idx: nat, out: Outcome<seq<Rec>>)
    requires idx < |before| && one == before[idx := FlushStep(before[idx]).0] && !FlushStep(before[idx]).1.Broken?
    requires (after, out) == (one[..idx + 1] + Pipe(one[idx + 1..], Leftover(FlushStep(before[idx]).1)).0,
                              Pipe(one[idx + 1..], Leftover(FlushStep(before[idx]).1)).1)
    ensures (before[..idx] + Flush(before[idx..]).0, Flush(before[idx..]).1) ==
            if out.Err? then (after, out)
            else (after[..idx + 1] + Flush(after[idx + 1..]).0, Prepend(out.value, Flush(after[idx + 1..]).1))
  {
    hide FlushStep, Pipe;
    var s := before[idx..];
    assert s[0] == before[idx] && s[1..] == before[idx + 1..] == one[idx + 1..];
    var piped := Pipe(one[idx + 1..], Leftover(FlushStep(before[idx]).1)).0;
    assert one[..idx + 1] == before[..idx] + [one[idx]];
    assert after[..idx + 1] == one[..idx + 1] && after[idx + 1..] == piped;
    assert before[..idx] + ([one[idx]] + piped) == after;
    if out.Ok? {
      var last := Flush(piped).0;
      assert before[..idx] + ([one[idx]] + last) == after[..idx + 1] + last;
    }
  }

  /** What a query does with what it receives next. */
  function Respond<S>(steps: seq<Step<S>>, incoming: Incoming): (seq<Step<S>>, Emission) {
    match incoming
    case Got(rec) => var (next, out) := Pipe(steps, [rec]); (next, Emitted(out))
    case Failed(code) => (steps, Emit([Err(code)]))
    case Closed => (steps, Emit([Err(NO_CONTENT)]))
    case NoContent =>
      var (next, out) := Flush(steps);
      var flushed := Emitted(out);
      (next, if flushed.Emit? then Emit(flushed.items + [Err(NO_CONTENT)]) else Emit([Err(NO_CONTENT)]))
  }

  function Items(e: Emission): seq<Outcome<Rec>> {
    if e.Emit? then e.items else []
  }

  /** Everything a query emits for its records and the way it ends. */
  function Answers<S>(steps: seq<Step<S>>, recs: seq<Rec>, end: Incoming): seq<Outcome<Rec>>
    decreases |recs|
  {
    if recs == [] then Items(Respond(steps, end).1)
    else
      var (next, out) := Respond(steps, Got(recs[0]));
      Items(out) + Answers(next, recs[1..], end)
  }

  lemma ItemsOfEmitted(out: Outcome<seq<Rec>>)
    requires out.Ok?
    ensures Items(Emitted(out)) == AsItems(out.value)
  {
  }

  lemma AsItemsAppend(a: seq<Rec>, b: seq<Rec>)
    ensures AsItems(a + b) == AsItems(a) + AsItems(b)
  {
  }

  /** What the end of a query adds to its records. */
  function Ending<S>(steps: seq<Step<S>>, recs: seq<Rec>, end: Incoming): seq<Outcome<Rec>> {
    Items(Respond(Feed(steps, recs).0, end).1)
  }

  /** Without errors a query answers with what its records give, and then with what its end adds. */
  lemma {:induction false} AnswersAre<S>(steps: seq<Step<S>>, recs: seq<Rec>, end: Incoming)
    requires Feed(steps, recs).1.Ok?
    ensures Answers(steps, recs, end) == AsItems(Feed(steps, recs).1.value) + Ending(steps, recs, end)
    decreases |recs|
  {
    hide Pipe, Flush, Emitted, AsItems;
    if recs == [] {
      EmptyItems();
      NothingBefore(Ending(steps, recs, end));
    } else {
      hide Items;
      var (next, out) := Pipe(steps, [recs[0]]);
      ItemsOfEmitted(out);
      AnswersAre(next, recs[1..], end);
      var fed, last := Feed(next, recs[1..]).1.value, Ending(next, recs[1..], end);
      AsItemsAppend(out.value, fed);
      ItemsAssociate(AsItems(out.value), AsItems(fed), last);
    }
  }

  lemma NothingBefore(items: seq<Outcome<Rec>>)
    ensures [] + items == items
  {
  }

  lemma ItemsAssociate(a: seq<Outcome<Rec>>, b: seq<Outcome<Rec>>, c: seq<Outcome<Rec>>)
    ensures a + (b + c) == (a + b) + c
  {
  }

  lemma EmptyItems()
    ensures AsItems([]) == []
  {
  }

  /** The answers of an error-free query are the composed stream followed by the end-of-content error. */
  lemma QueryAnswersComposition<S>(steps: seq<Step<S>>, recs: seq<Rec>)
    requires Feed(steps, recs).1.Ok? && Flush(Feed(steps, recs).0).1.Ok?
    ensures Compose(steps, recs).Ok?
    ensures Answers(steps, recs, NoContent) == AsItems(Compose(steps, recs).value) + [Err(NO_CONTENT)]
  {
    hide Feed, Flush, Compose, Answers, AsItems, Emitted;
    PipelineIsComposition(steps, recs);
    AnswersAre(steps, recs, NoContent);
    var fed, left := Feed(steps, recs).1.value, Flush(Feed(steps, recs).0).1.value;
    ItemsOfEmitted(Flush(Feed(steps, recs).0).1);
    AsItemsAppend(fed, left);
    ItemsAssociate(AsItems(fed), AsItems(left), [Err(NO_CONTENT)]);
    NothingBefore([Err(NO_CONTENT)]);
  }

  /** Every step in turn flushes nothing, or what it flushes the steps behind it take in without putting anything out. */
  ghost predicate HoldsNothing<S>(steps: seq<Step<S>>)
    decreases |steps|
  {
    steps != [] ==>
      var (rest, out) := Pipe(steps[1..], Leftover(FlushStep(steps[0]).1));
      out == Ok([]) && HoldsNothing(rest)
  }

  lemma {:induction false} FlushesNothingIff<S>(steps: seq<Step<S>>)
    requires Flush(steps).1.Ok?
    ensures Flush(steps).1.value == [] <==> HoldsNothing(steps)
    decreases |steps|
  {
    if steps != [] {
      hide Flush, FlushStep, Pipe;
      FlushParts(steps);
      var (rest, out) := Pipe(steps[1..], Leftover(FlushStep(steps[0]).1));
      FlushesNothingIff(rest);
    } else {
      FlushEnd(steps);
    }
  }

  /** The committers that have nothing left to hand out. */
  ghost predicate AllSpent<S>(steps: seq<Step<S>>) {
    forall i :: 0 <= i < |steps| ==> FlushStep(steps[i]).1 == Nothing
  }

  lemma {:induction false} SpentHoldsNothing<S>(steps: seq<Step<S>>)
    requires AllSpent(steps)
    ensures HoldsNothing(steps)
    decreases |steps|
  {
    if steps != [] {
      hide FlushStep, Pipe;
      PipeNothing(steps[1..]);
      SpentHoldsNothing(steps[1..]);
    }
  }

  /**
    A query whose channel closes before the end of its content is told ends without a flush: the
    leftovers of the steps are lost, so it answers with the composed stream if and only if the
    steps hold nothing that would have come out.
  */
  lemma ClosedQueryIff<S>(steps: seq<Step<S>>, recs: seq<Rec>)
    requires Feed(steps, recs).1.Ok? && Flush(Feed(steps, recs).0).1.Ok?
    ensures var lost := Flush(Feed(steps, recs).0).1.value;
            && Compose(steps, recs) == Ok(Feed(steps, recs).1.value + lost)
            && Answers(steps, recs, Closed) == AsItems(Feed(steps, recs).1.value) + [Err(NO_CONTENT)]
            && (Answers(steps, recs, Closed) == AsItems(Compose(steps, recs).value) + [Err(NO_CONTENT)]
                <==> HoldsNothing(Feed(steps, recs).0))
  {
    hide Feed, Flush, Compose, Answers, Emitted, HoldsNothing;
    FlushesNothingIff(Feed(steps, recs).0);
    PipelineIsComposition(steps, recs);
    AnswersAre(steps, recs, Closed);
    var fed, lost := Feed(steps, recs).1.value, Flush(Feed(steps, recs).0).1.value;
    assert |AsItems(fed) + [Err(NO_CONTENT)]| == |fed| + 1 && |AsItems(fed + lost) + [Err(NO_CONTENT)]| == |fed| + |lost| + 1;
    if lost == [] { assert fed + lost == fed; }
  }
}
