/**
  A step of the extension pipeline taken apart: that it processes, filters and commits item by
  item makes no difference; it is its processor, its filter and its committer, each on all it gets.
*/
module ExtStages {
  import opened ExtPipeline

  // ----- the three stages -----

  /** The records of a stream, or its first error. */
  function Stream(items: seq<Outcome<Rec>>): Outcome<seq<Rec>> {
    if items == [] then Ok([])
    else if items[0].Err? then Err(items[0].code)
    else Prepend([items[0].value], Stream(items[1..]))
  }

  /** The streams of all inputs, one after the other. */
  function ProcessAll<S>(b: Behaviour<S>, s: S, inputs: seq<Rec>): (S, Outcome<seq<Rec>>)
    decreases |inputs|
  {
    if inputs == [] then (s, Ok([]))
    else
      var (next, items) := b.process(s, inputs[0]);
      var stream := if items.Ok? then Stream(items.value) else Err(items.code);
      if stream.Err? then (next, stream)
      else
        var (last, rest) := ProcessAll(b, next, inputs[1..]);
        (last, Prepend(stream.value, rest))
  }

  function FilterAll<S>(b: Behaviour<S>, s: S, recs: seq<Rec>): (S, Outcome<seq<Rec>>)
    decreases |recs|
  {
    if recs == [] then (s, Ok([]))
    else
      var (next, filtered) := b.filter(s, recs[0]);
      if filtered.Rejected? then (next, Err(filtered.code))
      else
        var (last, rest) := FilterAll(b, next, recs[1..]);
        (last, Prepend(if filtered.Keep? then filtered.recs else [], rest))
  }

  /** What the committer says to each record. */
  function CommitEach<S>(b: Behaviour<S>, s: S, recs: seq<Rec>): (r: (S, seq<Commit>))
    ensures |r.1| == |recs|
    decreases |recs|
  {
    if recs == [] then (s, [])
    else
      var (next, c) := b.commit(s, recs[0]);
      var (last, rest) := CommitEach(b, next, recs[1..]);
      (last, [c] + rest)
  }

  ghost predicate NoneBroken(cs: seq<Commit>) {
    forall i :: 0 <= i < |cs| ==> !cs[i].Broken?
  }

  predicate Emits(c: Commit) {
    c.Ready? && c.rec.entry != ""
  }

  function HandedOne(rec: Rec, c: Commit): seq<Rec> {
    if Emits(c) then [Inherit(c.rec, rec.computed)] else []
  }

  /** The committed records that have an entry, each with the computed labels of the record it was made from. */
  function Handed(recs: seq<Rec>, cs: seq<Commit>): seq<Rec>
    requires |cs| == |recs|
  {
    if recs == [] then []
    else HandedOne(recs[0], cs[0]) + Handed(recs[1..], cs[1..])
  }

  function EmitCount(cs: seq<Commit>): nat {
    if cs == [] then 0 else (if Emits(cs[0]) then 1 else 0) + EmitCount(cs[1..])
  }

  /**
    One output for every committed record with an entry, in order: its entry and content are the
    committer's, and so are its computed labels, except that it inherits those it does not set.
  */
  lemma {:induction false} HandedAt(recs: seq<Rec>, cs: seq<Commit>, i: nat)
    requires |cs| == |recs| && i < |cs| && Emits(cs[i])
    ensures |Handed(recs, cs)| == EmitCount(cs) && EmitCount(cs[..i]) < EmitCount(cs)
    ensures var out, rec, input := Handed(recs, cs)[EmitCount(cs[..i])], cs[i].rec, recs[i];
            && out.entry == rec.entry && out.content == rec.content && out.computed.Keys == rec.computed.Keys + input.computed.Keys
            && forall k :: k in out.computed ==> out.computed[k] == if k in rec.computed then rec.computed[k] else input.computed[k]
  {
    hide Inherit, Emits;
    HandedLength(recs[1..], cs[1..]);
    if i == 0 {
      assert cs[..0] == [];
      FirstHanded(recs[0], cs[0]);
    } else {
      HandedAt(recs[1..], cs[1..], i - 1);
      assert cs[..i][1..] == cs[1..][..i - 1] && cs[..i][0] == cs[0];
      HandedSize(recs[0], cs[0]);
    }
  }

  lemma HandedSize(rec: Rec, c: Commit)
    ensures |HandedOne(rec, c)| == if Emits(c) then 1 else 0
  {
  }

  lemma FirstHanded(input: Rec, c: Commit)
    requires Emits(c)
    ensures |HandedOne(input, c)| == 1
    ensures var out, rec := HandedOne(input, c)[0], c.rec;
            && out.entry == rec.entry && out.content == rec.content && out.computed.Keys == rec.computed.Keys + input.computed.Keys
            && forall k :: k in out.computed ==> out.computed[k] == if k in rec.computed then rec.computed[k] else input.computed[k]
  {
  }

  lemma {:induction false} HandedLength(recs: seq<Rec>, cs: seq<Commit>)
    requires |cs| == |recs|
    ensures |Handed(recs, cs)| == EmitCount(cs)
  {
    hide Inherit;
    if recs != [] { HandedLength(recs[1..], cs[1..]); }
  }

  // ----- stages take their inputs piece by piece -----

  lemma {:induction false} CommitEachAppend<S>(b: Behaviour<S>, s: S, x: seq<Rec>, y: seq<Rec>)
    ensures var (mid, front) := CommitEach(b, s, x);
            var (last, back) := CommitEach(b, mid, y);
            CommitEach(b, s, x + y) == (last, front + back)
    decreases |x|
  {
    if x == [] {
      assert x + y == y && [] + CommitEach(b, s, y).1 == CommitEach(b, s, y).1;
    } else {
      var (next, c) := b.commit(s, x[0]);
      CommitEachAppend(b, next, x[1..], y);
      assert (x + y)[1..] == x[1..] + y;
      var (mid, front) := CommitEach(b, next, x[1..]);
      var back := CommitEach(b, mid, y).1;
      assert [c] + (front + back) == ([c] + front) + back;
    }
  }

  lemma {:induction false} HandedAppend(x: seq<Rec>, y: seq<Rec>, cx: seq<Commit>, cy: seq<Commit>)
    requires |cx| == |x| && |cy| == |y|
    ensures Handed(x + y, cx + cy) == Handed(x, cx) + Handed(y, cy)
    decreases |x|
  {
    hide HandedOne;
    if x == [] {
      assert x + y == y && cx + cy == cy && [] + Handed(y, cy) == Handed(y, cy);
    } else {
      HandedAppend(x[1..], y, cx[1..], cy);
      assert (x + y)[1..] == x[1..] + y && (cx + cy)[1..] == cx[1..] + cy;
      var head := HandedOne(x[0], cx[0]);
      assert head + (Handed(x[1..], cx[1..]) + Handed(y, cy)) == (head + Handed(x[1..], cx[1..])) + Handed(y, cy);
    }
  }

  lemma {:induction false} FilterAllAppend<S>(b: Behaviour<S>, s: S, x: seq<Rec>, y: seq<Rec>)
    ensures var (mid, front) := FilterAll(b, s, x);
            FilterAll(b, s, x + y) ==
              if front.Err? then (mid, front)
              else var (last, back) := FilterAll(b, mid, y); (last, Prepend(front.value, back))
    decreases |x|
  {
    if x == [] {
      assert x + y == y;
      PrependNothing(FilterAll(b, s, y).1);
    } else {
      var (next, filtered) := b.filter(s, x[0]);
      assert (x + y)[1..] == x[1..] + y;
      if !filtered.Rejected? {
        FilterAllAppend(b, next, x[1..], y);
        var (mid, rest) := FilterAll(b, next, x[1..]);
        if rest.Ok? { PrependTwice(if filtered.Keep? then filtered.recs else [], rest.value, FilterAll(b, mid, y).1); }
      }
    }
  }

  // ----- one step -----

  lemma {:induction false} CommitStage<S>(step: Step<S>, recs: seq<Rec>)
    ensures var (last, cs) := CommitEach(step.behaviour, step.committer, recs);
            && (CommitAll(step, recs).1.Ok? <==> NoneBroken(cs))
            && (NoneBroken(cs) ==> CommitAll(step, recs) == (step.(committer := last), Ok(Handed(recs, cs))))
    decreases |recs|
  {
    hide Inherit;
    if recs != [] {
      var (c, committed) := step.behaviour.commit(step.committer, recs[0]);
      var next := step.(committer := c);
      CommitStage(next, recs[1..]);
      var cs := CommitEach(next.behaviour, c, recs[1..]).1;
      BrokenSooner(committed, cs);
      assert [] + Handed(recs[1..], cs) == Handed(recs[1..], cs);
    }
  }

  lemma BrokenSooner(c: Commit, cs: seq<Commit>)
    ensures NoneBroken([c] + cs) <==> !c.Broken? && NoneBroken(cs)
    ensures ([c] + cs)[0] == c && ([c] + cs)[1..] == cs
  {
    var all := [c] + cs;
    if NoneBroken(all) {
      assert !all[0].Broken?;
      assert forall i :: 0 <= i < |cs| ==> cs[i] == all[i + 1];
    }
  }

  lemma BrokenEither(x: seq<Commit>, y: seq<Commit>)
    ensures NoneBroken(x + y) <==> NoneBroken(x) && NoneBroken(y)
  {
    var all := x + y;
    assert forall i :: 0 <= i < |x| ==> x[i] == all[i];
    assert forall i :: 0 <= i < |y| ==> y[i] == all[|x| + i];
  }

  /** The filter and the committer on all records of a stream. */
  ghost predicate Stages<S>(step: Step<S>, recs: Outcome<seq<Rec>>, r: (Step<S>, Outcome<seq<Rec>>)) {
    if recs.Err? then r.1.Err?
    else
      var (f, kept) := FilterAll(step.behaviour, step.filter, recs.value);
      if kept.Err? then r.1.Err?
      else
        var (c, cs) := CommitEach(step.behaviour, step.committer, kept.value);
        if !NoneBroken(cs) then r.1.Err?
        else r == (step.(filter := f, committer := c), Ok(Handed(kept.value, cs)))
  }

  /** Running the stages on one piece and then on the rest is running them on the whole. */
  lemma StagesAppend<S>(step: Step<S>, x: seq<Rec>, y: Outcome<seq<Rec>>,
                        first: (Step<S>, Outcome<seq<Rec>>), second: (Step<S>, Outcome<seq<Rec>>))
    requires Stages(step, Ok(x), first) && (first.1.Ok? ==> Stages(first.0, y, second))
    ensures Stages(step, Prepend(x, y),
                   if first.1.Err? then first else (second.0, Prepend(first.1.value, second.1)))
  {
    hide Handed, FilterAll, CommitEach, NoneBroken;
    if y.Ok? {
      var b := step.behaviour;
      FilterAllAppend(b, step.filter, x, y.value);
      var (f, kx) := FilterAll(b, step.filter, x);
      if kx.Ok? {
        var (f', ky) := FilterAll(b, f, y.value);
        var (c, cx) := CommitEach(b, step.committer, kx.value);
        if ky.Ok? {
          var (c', cy) := CommitEach(b, c, ky.value);
          CommitEachAppend(b, step.committer, kx.value, ky.value);
          BrokenEither(cx, cy);
          HandedAppend(kx.value, ky.value, cx, cy);
        }
      }
    }
  }

  /** What a step does with one record of a stream. */
  function OneItem<S>(step: Step<S>, rec: Rec): (Step<S>, Outcome<seq<Rec>>) {
    var (f, filtered) := step.behaviour.filter(step.filter, rec);
    var next := step.(filter := f);
    match filtered
    case Rejected(code) => (next, Err(code))
    case Drop => (next, Ok([]))
    case Keep(recs) => CommitAll(next, recs)
  }

  lemma OneItemStage<S>(step: Step<S>, rec: Rec)
    ensures Stages(step, Ok([rec]), OneItem(step, rec))
  {
    hide Handed, NoneBroken, CommitAll, FilterAll;
    var (f, filtered) := step.behaviour.filter(step.filter, rec);
    FilterOne(step.behaviour, step.filter, rec);
    if filtered.Keep? { CommitStage(step.(filter := f), filtered.recs); }
    NothingHanded(step.behaviour, step.committer);
  }

  lemma FilterOne<S>(b: Behaviour<S>, s: S, rec: Rec)
    ensures var (next, filtered) := b.filter(s, rec);
            FilterAll(b, s, [rec]) == (next, match filtered
                                             case Rejected(code) => Err(code)
                                             case Drop => Ok([])
                                             case Keep(recs) => Ok(recs))
  {
    var (next, filtered) := b.filter(s, rec);
    assert [rec][1..] == [];
    assert FilterAll(b, next, []) == (next, Ok([]));
    PrependNothing<Rec>(Ok([]));
    if filtered.Keep? { assert filtered.recs + [] == filtered.recs; }
  }

  lemma NothingHanded<S>(b: Behaviour<S>, s: S)
    ensures CommitEach(b, s, []) == (s, []) && NoneBroken([]) && Handed([], []) == []
  {
  }

  lemma {:induction false} ItemsStage<S>(step: Step<S>, items: seq<Outcome<Rec>>)
    ensures Stages(step, Stream(items), ItemsAll(step, items))
    decreases |items|
  {
    hide Handed, NoneBroken, CommitAll, Stages;
    if items == [] {
      NoItems(step);
    } else if items[0].Err? {
      FailedStage(step, items[0].code, ItemsAll(step, items));
    } else {
      var first := OneItem(step, items[0].value);
      OneItemStage(step, items[0].value);
      if first.1.Ok? {
        ItemsStage(first.0, items[1..]);
        PrependNothing(ItemsAll(first.0, items[1..]).1);
      }
      StagesAppend(step, [items[0].value], Stream(items[1..]), first, ItemsAll(first.0, items[1..]));
    }
  }

  lemma NoItems<S>(step: Step<S>)
    ensures Stages(step, Ok([]), (step, Ok([])))
  {
    NothingHanded(step.behaviour, step.committer);
  }

  lemma FailedStage<S>(step: Step<S>, code: int, r: (Step<S>, Outcome<seq<Rec>>))
    requires r.1.Err?
    ensures Stages(step, Err(code), r)
  {
  }

  /** The processor plays no part in the later stages. */
  lemma OtherProcessor<S>(step: Step<S>, recs: Outcome<seq<Rec>>, r: (Step<S>, Outcome<seq<Rec>>), p: S)
    requires Stages(step, recs, r)
    ensures Stages(step.(processor := p), recs, (r.0.(processor := p), r.1))
  {
    hide Handed, NoneBroken, FilterAll, CommitEach;
  }

  lemma StageKeeps<S>(step: Step<S>, recs: Outcome<seq<Rec>>, r: (Step<S>, Outcome<seq<Rec>>))
    requires Stages(step, recs, r)
    ensures r.1.Ok? ==> recs.Ok? && r.0.processor == step.processor && r.0.behaviour == step.behaviour
  {
    hide Handed, NoneBroken, FilterAll, CommitEach;
  }

  lemma AnyFailure<S>(step: Step<S>, recs: Outcome<seq<Rec>>, r: (Step<S>, Outcome<seq<Rec>>), r': (Step<S>, Outcome<seq<Rec>>))
    requires Stages(step, recs, r) && r.1.Err? && r'.1.Err?
    ensures Stages(step, recs, r')
  {
    hide Handed, NoneBroken, FilterAll, CommitEach;
  }

  /**
    A step succeeds if and only if each of its stages does on everything that it gets, and its
    outputs and its states are then those of the stages.
  */
  lemma {:induction false} StepIsStages<S>(step: Step<S>, inputs: seq<Rec>)
    ensures var (p, recs) := ProcessAll(step.behaviour, step.processor, inputs);
            Stages(step.(processor := p), recs, StepAll(step, inputs))
    decreases |inputs|
  {
    hide Handed, NoneBroken, ItemsAll, Stages, Stream;
    if inputs == [] {
      NoItems(step);
    } else {
      var b := step.behaviour;
      var (p, items) := b.process(step.processor, inputs[0]);
      var next := step.(processor := p);
      if items.Ok? {
        ItemsStage(next, items.value);
        var first, stream := ItemsAll(next, items.value), Stream(items.value);
        StageKeeps(next, stream, first);
        if stream.Err? {
          FailedStage(next, stream.code, StepAll(step, inputs));
        } else {
          var (q, recs) := ProcessAll(b, p, inputs[1..]);
          var second := StepAll(first.0, inputs[1..]);
          if first.1.Ok? { StepIsStages(first.0, inputs[1..]); }
          OtherProcessor(next, stream, first, q);
          if first.1.Ok? { OtherProcessor(first.0.(processor := q), recs, second, q); }
          StagesAppend(step.(processor := q), stream.value, recs, (first.0.(processor := q), first.1), second);
          if first.1.Err? { AnyFailure(step.(processor := q), Prepend(stream.value, recs), (first.0.(processor := q), first.1), first); }
        }
      } else {
        FailedStage(next, items.code, StepAll(step, inputs));
      }
    }
  }

  // ----- the end of a stream -----

  /** On a whole stream a step adds the record that its committer still holds, if there is one. */
  lemma WholeStepEnds<S>(step: Step<S>, inputs: seq<Rec>)
    ensures var (last, out) := StepAll(step, inputs);
            WholeStep(step, inputs) ==
            if out.Err? then out
            else match step.behaviour.flush(last.committer).1
              case Broken(code) => Err(code)
              case Nothing => out
              case Ready(rec) => Ok(out.value + [rec])
  {
    hide Handed, NoneBroken, FilterAll, CommitEach, StepAll;
    StepIsStages(step, inputs);
    var (last, out) := StepAll(step, inputs);
    if out.Ok? { assert out.value + [] == out.value; }
  }

  /** Flushing the last step gives its record alone. */
  lemma FlushLast<S>(step: Step<S>)
    ensures Flush([step]).1 == match step.behaviour.flush(step.committer).1
                               case Broken(code) => Err(code)
                               case Nothing => Ok([])
                               case Ready(rec) => Ok([rec])
  {
    var (first, left) := FlushStep(step);
    assert [step][1..] == [];
    FlushEnd<S>([]);
    PipeEnd<S>(Leftover(left), []);
    assert Leftover(left) + [] == Leftover(left);
  }

  /** Nothing is answered for a record that gives nothing, and nothing but the error for one that fails. */
  lemma EmittedIs(out: Outcome<seq<Rec>>)
    ensures Emitted(out) == match out
                            case Err(code) => Emit([Err(code)])
                            case Ok(recs) => if |recs| == 0 then Silent else Emit(seq(|recs|, i requires 0 <= i < |recs| => Ok(recs[i])))
  {
  }

  // ----- errors -----

  /** The first error of a committer ends it; the records it would have been given behind that one are not committed. */
  lemma {:induction false} CommitFails<S>(step: Step<S>, recs: seq<Rec>, i: nat)
    requires i < |recs| && NoneBroken(CommitEach(step.behaviour, step.committer, recs).1[..i])
    requires CommitEach(step.behaviour, step.committer, recs).1[i].Broken?
    ensures CommitAll(step, recs).1 == Err(CommitEach(step.behaviour, step.committer, recs).1[i].code)
    decreases |recs|
  {
    hide Inherit;
    var (c, committed) := step.behaviour.commit(step.committer, recs[0]);
    var next := step.(committer := c);
    var cs, rest := CommitEach(step.behaviour, step.committer, recs).1, CommitEach(step.behaviour, c, recs[1..]).1;
    if i > 0 {
      assert cs[..i] == [committed] + rest[..i - 1];
      BrokenSooner(committed, rest[..i - 1]);
      CommitFails(next, recs[1..], i - 1);
    }
  }

  lemma {:induction false} ItemsAppend<S>(step: Step<S>, x: seq<Outcome<Rec>>, y: seq<Outcome<Rec>>)
    ensures var (mid, out) := ItemsAll(step, x);
            ItemsAll(step, x + y) ==
              if out.Err? then (mid, out)
              else var (last, rest) := ItemsAll(mid, y); (last, Prepend(out.value, rest))
    decreases |x|
  {
    hide CommitAll;
    if x == [] {
      assert x + y == y;
      PrependNothing(ItemsAll(step, y).1);
    } else if x[0].Ok? {
      assert (x + y)[0] == x[0] && (x + y)[1..] == x[1..] + y;
      var first := OneItem(step, x[0].value);
      if first.1.Ok? {
        ItemsAppend(first.0, x[1..], y);
        PrependNothing(ItemsAll(first.0, x[1..] + y).1);
        PrependNothing(ItemsAll(first.0, x[1..]).1);
        var (mid, rest) := ItemsAll(first.0, x[1..]);
        if rest.Ok? { PrependTwice(first.1.value, rest.value, ItemsAll(mid, y).1); }
      }
    }
  }

  /** Of a stream the first error of an item, of the filter or of the committer is the answer. */
  lemma ItemsFail<S>(step: Step<S>, items: seq<Outcome<Rec>>, i: nat, code: int)
    requires i < |items| && ItemsAll(step, items[..i]).1.Ok?
    requires if items[i].Err? then items[i].code == code else OneItem(ItemsAll(step, items[..i]).0, items[i].value).1 == Err(code)
    ensures ItemsAll(step, items).1 == Err(code)
  {
    hide CommitAll;
    assert items == items[..i] + items[i..];
    ItemsAppend(step, items[..i], items[i..]);
    assert items[i..][0] == items[i];
  }

  /** Of several inputs the first that fails is the answer. */
  lemma StepFails<S>(step: Step<S>, inputs: seq<Rec>, i: nat)
    requires i < |inputs| && StepAll(step, inputs[..i]).1.Ok? && StepOne(StepAll(step, inputs[..i]).0, inputs[i]).1.Err?
    ensures StepAll(step, inputs).1 == StepOne(StepAll(step, inputs[..i]).0, inputs[i]).1
  {
    hide StepOne;
    assert inputs == inputs[..i] + inputs[i..];
    StepAllAppend(step, inputs[..i], inputs[i..]);
    assert inputs[i..][0] == inputs[i];
  }

  /** One input fails with the error of its processor, or with that of its stream. */
  lemma InputFails<S>(step: Step<S>, input: Rec)
    ensures var (p, items) := step.behaviour.process(step.processor, input);
            StepOne(step, input).1 == if items.Err? then Err(items.code) else ItemsAll(step.(processor := p), items.value).1
  {
    hide ItemsAll;
  }
}
