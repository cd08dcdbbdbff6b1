/**
  The replication diagnostics: results are counted in frames of equal length, of which the last
  sixty are kept, and the report merges the frames.
*/
module Diagnostics {
  import opened Common

  const FRAME_COUNT: nat := 60

  /** A counted result. */
  datatype Event = Success(n: nat) | Failure(code: int, message: string, n: nat)

  datatype ErrorStat = ErrorStat(count: nat, lastMessage: string)

  datatype Item = Item(ok: nat, errored: nat, errors: map<int, ErrorStat>)

  const EMPTY: Item := Item(0, 0, map[])

  /** A frame after one more result. */
  function Counted(frame: Item, e: Event): Item {
    match e
    case Success(n) => frame.(ok := frame.ok + n)
    case Failure(code, message, n) =>
      var before := if code in frame.errors then frame.errors[code].count else 0;
      Item(frame.ok, frame.errored + n, frame.errors[code := ErrorStat(before + n, message)])
  }

  /** What counting the events in turn gives. */
  function Summary(events: seq<Event>): Item {
    if events == [] then EMPTY else Counted(Summary(events[..|events| - 1]), events[|events| - 1])
  }

  function Summaries(frames: seq<seq<Event>>): (items: seq<Item>)
    ensures |items| == |frames|
  {
    seq(|frames|, i requires 0 <= i < |frames| => Summary(frames[i]))
  }

  function MergedErrors(acc: map<int, ErrorStat>, errors: map<int, ErrorStat>): map<int, ErrorStat> {
    map code | code in acc.Keys + errors.Keys ::
      if code !in errors then acc[code]
      else if code !in acc then errors[code]
      else ErrorStat(acc[code].count + errors[code].count, errors[code].lastMessage)
  }

  function Merged(a: Item, b: Item): Item {
    Item(a.ok + b.ok, a.errored + b.errored, MergedErrors(a.errors, b.errors))
  }

  function MergedAll(frames: seq<Item>): Item {
    if frames == [] then EMPTY else Merged(MergedAll(frames[..|frames| - 1]), frames[|frames| - 1])
  }

  function Flatten(frames: seq<seq<Event>>): seq<Event> {
    if frames == [] then [] else Flatten(frames[..|frames| - 1]) + frames[|frames| - 1]
  }

  // ----- what the report means -----

  lemma MergedCounted(a: Item, b: Item, e: Event)
    ensures Merged(a, Counted(b, e)) == Counted(Merged(a, b), e)
  {
    if e.Failure? {
      var l, r := Merged(a, Counted(b, e)).errors, Counted(Merged(a, b), e).errors;
      assert l.Keys == r.Keys;
      assert forall code :: code in l ==> l[code] == r[code];
    }
  }

  lemma MergedEmpty(a: Item)
    ensures Merged(a, EMPTY) == a
  {
    MergedWithNone(a.errors, map[]);
  }

  lemma {:induction false} MergedSummaries(a: seq<Event>, b: seq<Event>)
    ensures Merged(Summary(a), Summary(b)) == Summary(a + b)
    decreases |b|
  {
    hide Merged, Counted;
    if b == [] {
      assert a + b == a;
      MergedEmpty(Summary(a));
    } else {
      var front, last := b[..|b| - 1], b[|b| - 1];
      MergedSummaries(a, front);
      MergedCounted(Summary(a), Summary(front), last);
      assert (a + b)[..|a + b| - 1] == a + front;
    }
  }

  /** Merging frames gives what counting all their events in turn would have given. */
  lemma {:induction false} MergeIsSummary(frames: seq<seq<Event>>)
    ensures MergedAll(Summaries(frames)) == Summary(Flatten(frames))
  {
    hide Merged, Summary, Summaries, Flatten, MergedAll;
    if frames == [] {
      NoEvents(frames);
    } else {
      var front, last := frames[..|frames| - 1], frames[|frames| - 1];
      SummariesPush(front, last);
      MergeIsSummary(front);
      MergedSummaries(Flatten(front), last);
      FlattenLast(front, last);
      MergedLast(Summaries(front), Summary(last));
      assert frames == front + [last];
    }
  }

  lemma NoEvents(frames: seq<seq<Event>>)
    requires frames == []
    ensures MergedAll(Summaries(frames)) == EMPTY && Summary(Flatten(frames)) == EMPTY
  {
  }

  lemma FlattenLast(front: seq<seq<Event>>, last: seq<Event>)
    ensures Flatten(front + [last]) == Flatten(front) + last
  {
    assert (front + [last])[..|front|] == front;
  }

  lemma MergedNone(frames: seq<Item>)
    requires frames == []
    ensures MergedAll(frames) == EMPTY
  {
  }

  lemma MergedLast(front: seq<Item>, last: Item)
    ensures MergedAll(front + [last]) == Merged(MergedAll(front), last)
  {
    hide Merged;
    assert (front + [last])[..|front|] == front;
  }

  /** An event of the given error code. */
  predicate IsError(e: Event, code: int) {
    e.Failure? && e.code == code
  }

  function CodeTotal(events: seq<Event>, code: int): nat {
    if events == [] then 0
    else
      CodeTotal(events[..|events| - 1], code)
      + (if IsError(events[|events| - 1], code) then events[|events| - 1].n else 0)
  }

  /** `message` is that of the newest event with the code. */
  ghost predicate Newest(events: seq<Event>, code: int, message: string) {
    exists i :: 0 <= i < |events| && IsError(events[i], code) && events[i].message == message
                && forall j :: i < j < |events| ==> !IsError(events[j], code)
  }

  lemma NewestGrows(events: seq<Event>, code: int, message: string)
    requires events != [] && !IsError(events[|events| - 1], code)
    requires Newest(events[..|events| - 1], code, message)
    ensures Newest(events, code, message)
  {
    var front := events[..|events| - 1];
    var i :| 0 <= i < |front| && IsError(front[i], code) && front[i].message == message
             && forall j :: i < j < |front| ==> !IsError(front[j], code);
    assert events[i] == front[i];
    forall j | i < j < |events|
      ensures !IsError(events[j], code)
    {
      if j < |front| { assert events[j] == front[j]; }
    }
  }

  /** Every code that occurs is listed with its total and its newest message, and no other code is. */
  lemma {:induction false} SummaryMeaning(events: seq<Event>, code: int)
    ensures var errors := Summary(events).errors;
            && (code in errors <==> exists i :: 0 <= i < |events| && IsError(events[i], code))
            && CodeTotal(events, code) == (if code in errors then errors[code].count else 0)
            && (code in errors ==> Newest(events, code, errors[code].lastMessage))
  {
    if events != [] {
      var front, last := events[..|events| - 1], events[|events| - 1];
      SummaryMeaning(front, code);
      assert events == front + [last];
      if IsError(last, code) {
        assert IsError(events[|events| - 1], code);
      } else {
        assert code in Summary(events).errors <==> code in Summary(front).errors;
        if code in Summary(front).errors { NewestGrows(events, code, Summary(front).errors[code].lastMessage); }
      }
    }
  }

  function SuccessTotal(events: seq<Event>): nat {
    if events == [] then 0 else (if events[0].Success? then events[0].n else 0) + SuccessTotal(events[1..])
  }

  /** The successes add up. */
  lemma {:induction false} SuccessesAddUp(events: seq<Event>)
    ensures Summary(events).ok == SuccessTotal(events)
  {
    if events != [] {
      SuccessesAddUp(events[..|events| - 1]);
      SuccessesSplit(events);
    }
  }

  lemma {:induction false} SuccessesSplit(events: seq<Event>)
    requires events != []
    ensures var last := events[|events| - 1];
            SuccessTotal(events) == SuccessTotal(events[..|events| - 1]) + if last.Success? then last.n else 0
  {
    if |events| > 1 {
      SuccessesSplit(events[1..]);
      assert events[1..][..|events| - 2] == events[..|events| - 1][1..];
    }
  }

  function CountAt(errors: map<int, ErrorStat>, code: int): nat {
    if code in errors then errors[code].count else 0
  }

  /** The counts of the listed codes together. */
  function Total(errors: map<int, ErrorStat>, codes: seq<int>): nat {
    if codes == [] then 0 else Total(errors, codes[..|codes| - 1]) + CountAt(errors, codes[|codes| - 1])
  }

  lemma {:induction false} TotalChanges(errors: map<int, ErrorStat>, codes: seq<int>, code: int, stat: ErrorStat, n: nat)
    requires Unique(codes) && stat.count == CountAt(errors, code) + n
    ensures Total(errors[code := stat], codes) == Total(errors, codes) + (if code in codes then n else 0)
  {
    if codes != [] {
      var front, last := codes[..|codes| - 1], codes[|codes| - 1];
      TotalChanges(errors, front, code, stat, n);
      assert codes == front + [last];
      assert last !in front;
    }
  }

  /** Each result is reported once: the counts per code add up to the errors counted. */
  lemma {:induction false} CodesAddUp(events: seq<Event>, codes: seq<int>)
    requires Unique(codes) && forall code :: code in Summary(events).errors ==> code in codes
    ensures Total(Summary(events).errors, codes) == Summary(events).errored
    decreases |events|
  {
    if events == [] {
      NothingTotals(codes);
    } else {
      var front, last := events[..|events| - 1], events[|events| - 1];
      var before := Summary(front);
      if last.Failure? {
        var stat := Summary(events).errors[last.code];
        assert last.code in codes;
        TotalChanges(before.errors, codes, last.code, stat, last.n);
      }
      CodesAddUp(front, codes);
    }
  }

  lemma {:induction false} NothingTotals(codes: seq<int>)
    ensures Total(map[], codes) == 0
  {
    if codes != [] { NothingTotals(codes[..|codes| - 1]); }
  }

  // ----- the sliding window -----

  /** The last sixty frames. */
  function Recent<T>(frames: seq<T>): (r: seq<T>)
    ensures |r| == if |frames| < FRAME_COUNT then |frames| else FRAME_COUNT
  {
    if |frames| <= FRAME_COUNT then frames else frames[|frames| - FRAME_COUNT..]
  }

  function EmptyFrames(n: nat): seq<seq<Event>> {
    seq(n, _ => [])
  }

  /** The unbounded history after a result that comes `ticks` frames later. */
  function Extended(history: seq<seq<Event>>, ticks: nat, e: Event): seq<seq<Event>>
    requires history != []
  {
    var all := history + EmptyFrames(ticks);
    all[|all| - 1 := all[|all| - 1] + [e]]
  }

  lemma RecentPush(frames: seq<seq<Event>>, frame: seq<Event>)
    ensures var pushed := Recent(frames) + [frame];
            Recent(frames + [frame]) == if FRAME_COUNT < |pushed| then pushed[1..] else pushed
  {
  }

  lemma EmptySummary()
    ensures Summary([]) == EMPTY
  {
  }

  lemma SummariesPush(frames: seq<seq<Event>>, frame: seq<Event>)
    ensures Summaries(frames + [frame]) == Summaries(frames) + [Summary(frame)]
    ensures Summaries((frames + [frame])[1..]) == (Summaries(frames) + [Summary(frame)])[1..]
  {
    hide Summary;
  }

  lemma RecentLast(history: seq<seq<Event>>, e: Event)
    requires history != []
    ensures var recent := Recent(history);
            Summaries(Recent(history[|history| - 1 := history[|history| - 1] + [e]]))
            == Summaries(recent)[|recent| - 1 := Counted(Summaries(recent)[|recent| - 1], e)]
  {
    hide Counted;
    var h' := history[|history| - 1 := history[|history| - 1] + [e]];
    var a, b := Recent(h'), Recent(history);
    assert a == b[|b| - 1 := b[|b| - 1] + [e]];
    assert (b[|b| - 1] + [e])[..|b[|b| - 1]|] == b[|b| - 1];
  }

  /** A result and the number of frames that passed before it. */
  datatype Timed = Timed(ticks: nat, e: Event)

  function History(counts: seq<Timed>): (h: seq<seq<Event>>)
    ensures h != []
  {
    if counts == [] then [[]]
    else Extended(History(counts[..|counts| - 1]), counts[|counts| - 1].ticks, counts[|counts| - 1].e)
  }

  function TotalTicks(counts: seq<Timed>): nat {
    if counts == [] then 0 else TotalTicks(counts[..|counts| - 1]) + counts[|counts| - 1].ticks
  }

  function Events(counts: seq<Timed>): seq<Event> {
    seq(|counts|, i requires 0 <= i < |counts| => counts[i].e)
  }

  lemma {:induction false} FlattenEmpty(frames: seq<seq<Event>>, ticks: nat)
    ensures Flatten(frames + EmptyFrames(ticks)) == Flatten(frames)
  {
    if ticks == 0 {
      assert frames + EmptyFrames(ticks) == frames;
    } else {
      FlattenEmpty(frames, ticks - 1);
      assert (frames + EmptyFrames(ticks))[..|frames| + ticks - 1] == frames + EmptyFrames(ticks - 1);
    }
  }

  lemma FlattenExtended(history: seq<seq<Event>>, ticks: nat, e: Event)
    requires history != []
    ensures Flatten(Extended(history, ticks, e)) == Flatten(history) + [e]
    ensures |Extended(history, ticks, e)| == |history| + ticks
  {
    hide Flatten;
    FlattenEmpty(history, ticks);
    var all := history + EmptyFrames(ticks);
    var front, last := all[..|all| - 1], all[|all| - 1];
    assert all == front + [last] && Extended(history, ticks, e) == front + [last + [e]];
    FlattenLast(front, last);
    FlattenLast(front, last + [e]);
  }

  /** The unbounded history holds one frame more than frames passed, and every result in order. */
  lemma {:induction false} HistoryIsComplete(counts: seq<Timed>)
    ensures |History(counts)| == TotalTicks(counts) + 1
    ensures Flatten(History(counts)) == Events(counts)
  {
    if counts == [] {
      FlattenLast([], []);
      assert [] + [[]] == History(counts);
    } else {
      hide Flatten, Extended;
      var front, last := counts[..|counts| - 1], counts[|counts| - 1];
      HistoryIsComplete(front);
      FlattenExtended(History(front), last.ticks, last.e);
      assert Events(counts) == Events(front) + [last.e];
    }
  }

  // ----- the code -----

  class DiagnosticsCounter {
    var frames: seq<Item>
    const frameInterval: nat
    var frameLast: nat
    /** Everything counted so far, frame by frame. */
    ghost var history: seq<seq<Event>>

    ghost predicate Valid()
      reads this
    {
      history != [] && frames == Summaries(Recent(history))
    }

    constructor (interval: nat, now: nat)
      ensures Valid() && history == [[]] && frameInterval == interval / FRAME_COUNT && frameLast == now
    {
      frames := [EMPTY];
      frameInterval := interval / FRAME_COUNT;
      frameLast := now;
      history := [[]];
    }

    /** How many whole frames have passed; times are in milliseconds. */
    function Ticks(now: nat): (n: nat)
      requires 0 < frameInterval
      reads this
      ensures now < frameLast ==> n == 0
      ensures frameLast <= now ==> frameLast + n * frameInterval <= now < frameLast + (n + 1) * frameInterval
    {
      if now < frameLast then 0 else (now - frameLast) / frameInterval
    }

    method CountResult(e: Event, now: nat)
      requires Valid() && 0 < frameInterval
      modifies this
      ensures Valid() && history == Extended(old(history), old(Ticks(now)), e)
      ensures frameLast == if old(Ticks(now)) == 0 then old(frameLast) else now
    {
      hide Recent, Counted, Summaries;
      CheckAndCreateNewFrame(now);
      RecentLast(history, e);
      var frame := CountIn(frames[|frames| - 1], e);
      frames := frames[|frames| - 1 := frame];
      history := history[|history| - 1 := history[|history| - 1] + [e]];
    }

    method CountIn(item: Item, e: Event) returns (frame: Item)
      ensures frame == Counted(item, e)
    {
      frame := item;
      match e {
        case Success(n) => frame := frame.(ok := frame.ok + n);
        case Failure(code, message, n) =>
          frame := frame.(errored := frame.errored + n);
          if code in frame.errors {
            frame := frame.(errors := frame.errors[code := ErrorStat(frame.errors[code].count + n, message)]);
          } else {
            frame := frame.(errors := frame.errors[code := ErrorStat(n, message)]);
          }
      }
    }

    method CheckAndCreateNewFrame(now: nat)
      requires Valid() && 0 < frameInterval
      modifies this
      ensures Valid() && history == old(history) + EmptyFrames(old(Ticks(now)))
      ensures frameLast == if old(Ticks(now)) == 0 then old(frameLast) else now
    {
      hide Summary, Summaries, Recent;
      var delta := Ticks(now);
      EmptySummary();
      for i := 0 to delta
        invariant Valid() && history == old(history) + EmptyFrames(i)
        invariant frameLast == if i == 0 then old(frameLast) else now
      {
        RecentPush(history, []);
        SummariesPush(Recent(history), []);
        assert EmptyFrames(i + 1) == EmptyFrames(i) + [[]];
        frameLast := now;
        frames := frames + [EMPTY];
        if |frames| > FRAME_COUNT { frames := frames[1..]; }
        history := history + [[]];
      }
    }

    /** The report before its totals are scaled: the summary of the events of the last sixty frames. */
    method Report() returns (item: Item)
      requires Valid()
      ensures item == Summary(Flatten(Recent(history)))
      ensures |frames| == if |history| < FRAME_COUNT then |history| else FRAME_COUNT
    {
      hide MergedAll, MergedErrors, Summary, Flatten, Summaries;
      item := EMPTY;
      MergedNone(frames[..0]);
      for i := 0 to |frames|
        invariant item == MergedAll(frames[..i])
      {
        var errors := MergeErrors(item.errors, frames[i].errors);
        item := Item(item.ok + frames[i].ok, item.errored + frames[i].errored, errors);
        MergedLast(frames[..i], frames[i]);
        assert frames[..i + 1] == frames[..i] + [frames[i]];
      }
      assert frames[..|frames|] == frames;
      MergeIsSummary(Recent(history));
    }
  }

  /** The inner fold, over the codes of one frame in any order. */
  method MergeErrors(acc: map<int, ErrorStat>, errors: map<int, ErrorStat>) returns (merged: map<int, ErrorStat>)
    ensures merged == MergedErrors(acc, errors)
  {
    hide MergedErrors;
    merged := acc;
    var left := errors.Keys;
    MergedWithNone(acc, Picked(errors, left));
    while left != {}
      invariant left <= errors.Keys
      invariant merged == MergedErrors(acc, Picked(errors, left))
      decreases left
    {
      SomeLeft(left);
      var code :| code in left;
      PickedMerges(acc, errors, left, code);
      var stat := if code in merged then ErrorStat(merged[code].count + errors[code].count, errors[code].lastMessage) else errors[code];
      merged := merged[code := stat];
      left := left - {code};
    }
    assert Picked(errors, left) == errors;
  }

  lemma SomeLeft(left: set<int>)
    requires left != {}
    ensures exists code :: code in left
  {
    assert (forall code: int :: code !in left) ==> left == {};
  }

  /** The errors whose codes are no longer left. */
  ghost function Picked(errors: map<int, ErrorStat>, left: set<int>): map<int, ErrorStat> {
    map code | code in errors && code !in left :: errors[code]
  }

  lemma MergedWithNone(acc: map<int, ErrorStat>, none: map<int, ErrorStat>)
    requires none.Keys == {}
    ensures MergedErrors(acc, none) == acc
  {
  }

  lemma PickedMerges(acc: map<int, ErrorStat>, errors: map<int, ErrorStat>, left: set<int>, code: int)
    requires code in left && code in errors
    ensures var merged := MergedErrors(acc, Picked(errors, left));
            var stat := if code in merged then ErrorStat(merged[code].count + errors[code].count, errors[code].lastMessage) else errors[code];
            MergedErrors(acc, Picked(errors, left - {code})) == merged[code := stat]
  {
    var merged := MergedErrors(acc, Picked(errors, left));
    assert Picked(errors, left - {code}).Keys == Picked(errors, left).Keys + {code};
    assert forall c :: c != code && c in Picked(errors, left - {code}) ==> c in Picked(errors, left);
  }
}
