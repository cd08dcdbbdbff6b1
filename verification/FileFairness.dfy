/**
  Whole runs of the synchronisation worker: its rounds mixed with everything else that happens
  to the cached files. When is a file passed over, and for how long?
*/
module FileFairness {
  import opened Common
  import opened BackendFile
  import opened FileSync

  /** The cached files, and those that were discarded and are not yet closed or put back. */
  datatype World = World(files: Files, aside: Files)

  datatype Step =
    | Sync(round: Round)
    | Opened(path: string, h: Handle)
    | Used(path: string, op: Op)
    | UsedAside(path: string, op: Op)
    | Removed(path: string)
    | Discarded(path: string)
    | PutBack(path: string)
    | Closed(path: string)

  function Next(w: World, step: Step, interval: Option<nat>): World {
    match step
    case Sync(round) => w.(files := AfterRound(w.files, round, interval))
    case Opened(q, h) => w.(files := w.files[q := h])
    case Used(q, op) => if q in w.files then w.(files := w.files[q := Apply(w.files[q], op)]) else w
    case UsedAside(q, op) => if q in w.aside then w.(aside := w.aside[q := Apply(w.aside[q], op)]) else w
    case Removed(q) => w.(files := w.files - {q})
    case Discarded(q) => if q in w.files then World(w.files - {q}, w.aside[q := w.files[q]]) else w
    case PutBack(q) => if q in w.aside then World(w.files[q := w.aside[q]], w.aside - {q}) else w
    case Closed(q) => w.(aside := w.aside - {q})
  }

  /** What a step does to a file, cached or set aside; a step about one path leaves all other paths alone. */
  lemma StepEffects(w: World, step: Step, interval: Option<nat>, q: string)
    ensures var n := Next(w, step, interval);
            match step
            case Sync(round) => n.files == AfterRound(w.files, round, interval) && n.aside == w.aside
            case Opened(p, h) => Lookup(n.aside, q) == Lookup(w.aside, q) && Lookup(n.files, q) == if q == p then Some(h) else Lookup(w.files, q)
            case Used(p, op) =>
              && Lookup(n.aside, q) == Lookup(w.aside, q)
              && Lookup(n.files, q) == if q == p && p in w.files then Some(Apply(w.files[p], op)) else Lookup(w.files, q)
            case UsedAside(p, op) =>
              && Lookup(n.files, q) == Lookup(w.files, q)
              && Lookup(n.aside, q) == if q == p && p in w.aside then Some(Apply(w.aside[p], op)) else Lookup(w.aside, q)
            case Removed(p) => Lookup(n.aside, q) == Lookup(w.aside, q) && Lookup(n.files, q) == if q == p then None else Lookup(w.files, q)
            case Discarded(p) =>
              && Lookup(n.files, q) == (if q == p then None else Lookup(w.files, q))
              && Lookup(n.aside, q) == if q == p && p in w.files then Some(w.files[p]) else Lookup(w.aside, q)
            case PutBack(p) =>
              && Lookup(n.aside, q) == (if q == p then None else Lookup(w.aside, q))
              && Lookup(n.files, q) == if q == p && p in w.aside then Some(w.aside[p]) else Lookup(w.files, q)
            case Closed(p) => Lookup(n.files, q) == Lookup(w.files, q) && Lookup(n.aside, q) == if q == p then None else Lookup(w.aside, q)
  {
    hide AfterRound, Apply;
  }

  ghost function Run(w: World, steps: seq<Step>, interval: Option<nat>): World
    decreases |steps|
  {
    if steps == [] then w else Run(Next(w, steps[0], interval), steps[1..], interval)
  }

  predicate Chosen(w: World, step: Step, interval: Option<nat>, p: string) {
    step.Sync? && p in Paths(Selected(w.files, step.round, interval))
  }

  /** The round finds `p` writable, dirty, unlocked and overdue. */
  predicate Overdue(w: World, step: Step, interval: Option<nat>, p: string) {
    step.Sync? && interval.Some? && OverdueAt(w.files, step.round, interval.value, p)
  }

  ghost predicate NeverChosen(w: World, steps: seq<Step>, interval: Option<nat>, p: string)
    decreases |steps|
  {
    steps != [] ==> !Chosen(w, steps[0], interval, p) && NeverChosen(Next(w, steps[0], interval), steps[1..], interval, p)
  }

  // ----- exactly when a file starves -----

  /** Every round goes over the files that are cached then. */
  ghost predicate Listed(w: World, step: Step) {
    step.Sync? ==> Lists(step.round.order, w.files)
  }

  ghost predicate ListedRun(w: World, steps: seq<Step>, interval: Option<nat>)
    decreases |steps|
  {
    steps != [] ==> Listed(w, steps[0]) && ListedRun(Next(w, steps[0], interval), steps[1..], interval)
  }

  /** If the round takes `p`, a full batch of files is ahead of it. */
  ghost predicate Crowded(w: World, step: Step, interval: Option<nat>, p: string) {
    Overdue(w, step, interval, p) ==> SYNC_BATCH_SIZE <= |Ahead(w.files, step.round, interval, p)|
  }

  ghost predicate AlwaysCrowded(w: World, steps: seq<Step>, interval: Option<nat>, p: string)
    decreases |steps|
  {
    steps != [] ==> Crowded(w, steps[0], interval, p) && AlwaysCrowded(Next(w, steps[0], interval), steps[1..], interval, p)
  }

  lemma ChosenIff(w: World, step: Step, interval: Option<nat>, p: string)
    requires interval.Some? && Listed(w, step)
    ensures Chosen(w, step, interval, p) <==> Overdue(w, step, interval, p) && !Crowded(w, step, interval, p)
  {
    hide Selected, Takes, Ahead, Paths;
    if step.Sync? {
      if p in w.files { SelectedIff(w.files, step.round, interval, p); } else { SelectedFacts(w.files, step.round, interval); }
    }
  }

  /**
    Whatever else happens, a file is never synced by the worker if and only if every round that
    finds it overdue has a full batch of files ahead of it.
  */
  lemma {:induction false} StarvesIff(w: World, steps: seq<Step>, interval: Option<nat>, p: string)
    requires interval.Some? && ListedRun(w, steps, interval)
    ensures NeverChosen(w, steps, interval, p) <==> AlwaysCrowded(w, steps, interval, p)
    decreases |steps|
  {
    if steps != [] {
      hide Chosen, Next, Listed, Overdue;
      ChosenIff(w, steps[0], interval, p);
      StarvesIff(Next(w, steps[0], interval), steps[1..], interval, p);
    }
  }

  /** This round takes every file of `ahead` and syncs none of them. */
  ghost predicate Blocked(w: World, step: Step, interval: Option<nat>, ahead: set<string>) {
    && step.Sync? && Lists(step.round.order, w.files)
    && forall q :: q in ahead ==> Takes(w.files, step.round, interval, q) && !Succeeds(step.round.tries(q))
  }

  ghost predicate OlderThan(w: World, p: string, ahead: set<string>) {
    p in w.files && forall q :: q in ahead ==> q in w.files && w.files[q].lastSynced < w.files[p].lastSynced
  }

  ghost predicate SameStamps(w: World, w': World, ahead: set<string>) {
    && w.files.Keys == w'.files.Keys
    && forall q :: q in ahead && q in w.files ==>
         && w.files[q].lastSynced == w'.files[q].lastSynced
         && w.files[q].synced == w'.files[q].synced && w.files[q].mode == w'.files[q].mode
  }

  lemma BlockedStays(w: World, step: Step, interval: Option<nat>, p: string, ahead: set<string>)
    requires Blocked(w, step, interval, ahead) && OlderThan(w, p, ahead)
    requires interval.Some? && SYNC_BATCH_SIZE <= |ahead|
    ensures Crowded(w, step, interval, p)
    ensures OlderThan(Next(w, step, interval), p, ahead) && SameStamps(w, Next(w, step, interval), ahead)
  {
    hide Selected, Paths, Ahead;
    NotSelected(w.files, step.round, interval, p, ahead);
  }

  lemma BlockedAgain(w: World, w': World, step: Step, interval: Option<nat>, ahead: set<string>)
    requires SameStamps(w, w', ahead) && Blocked(w, step, interval, ahead)
    ensures Blocked(w', step, interval, ahead)
  {
    hide Unique;
  }

  lemma {:induction false} FailuresCrowd(w: World, steps: seq<Step>, interval: Option<nat>, p: string, ahead: set<string>)
    requires interval.Some? && SYNC_BATCH_SIZE <= |ahead| && OlderThan(w, p, ahead)
    requires forall i :: 0 <= i < |steps| ==> Blocked(w, steps[i], interval, ahead)
    ensures ListedRun(w, steps, interval) && AlwaysCrowded(w, steps, interval, p)
    decreases |steps|
  {
    if steps != [] {
      hide Crowded, Next, OlderThan, SameStamps, Lists, Takes;
      var after := Next(w, steps[0], interval);
      BlockedStays(w, steps[0], interval, p, ahead);
      forall i | 0 <= i < |steps[1..]|
        ensures Blocked(after, steps[1..][i], interval, ahead)
      {
        BlockedAgain(w, after, steps[i + 1], interval, ahead);
      }
      FailuresCrowd(after, steps[1..], interval, p, ahead);
      assert Blocked(w, steps[0], interval, ahead);
    }
  }

  /** So sixteen older files whose uploads keep failing starve `p` for as long as they do. */
  lemma FailuresStarve(w: World, steps: seq<Step>, interval: Option<nat>, p: string, ahead: set<string>)
    requires interval.Some? && SYNC_BATCH_SIZE <= |ahead| && OlderThan(w, p, ahead)
    requires forall i :: 0 <= i < |steps| ==> Blocked(w, steps[i], interval, ahead)
    ensures NeverChosen(w, steps, interval, p)
  {
    hide NeverChosen, AlwaysCrowded, ListedRun, Blocked, OlderThan;
    FailuresCrowd(w, steps, interval, p, ahead);
    StarvesIff(w, steps, interval, p);
  }

  // ----- how long it can take -----

  /** The other cached files that are at least as overdue as `p`. */
  ghost function Rivals(w: World, p: string): set<string>
    requires p in w.files
  {
    set q | q in w.files && q != p && w.files[q].lastSynced <= w.files[p].lastSynced
  }

  /** The discarded files that are at least as overdue: they may be put back. */
  ghost function RivalsAside(w: World, p: string): set<string>
    requires p in w.files
  {
    set q | q in w.aside && w.aside[q].lastSynced <= w.files[p].lastSynced
  }

  ghost function RivalCount(w: World, p: string): nat
    requires p in w.files
  {
    |Rivals(w, p)| + |RivalsAside(w, p)|
  }

  ghost predicate SaneWorld(w: World) {
    Sane(w.files) && Sane(w.aside)
  }

  /**
    The clock advances: a file opened or synced gets a stamp later than that of `p`. The file itself
    stays in the cache with its handle, and nobody but the worker syncs it.
  */
  ghost predicate Legal(w: World, step: Step, p: string) {
    p in w.files &&
    var stamp := w.files[p].lastSynced;
    match step
    case Sync(round) => Lists(round.order, w.files) && forall q :: round.tries(q).Tried? ==> stamp < round.tries(q).at
    case Opened(q, h) => q != p && stamp < h.lastSynced && (h.ignoreWrite ==> h.synced)
    case Used(q, op) => op.SyncAll? ==> q != p && stamp < op.now
    case UsedAside(q, op) => op.SyncAll? ==> stamp < op.now
    case Removed(q) => q != p
    case Discarded(q) => q != p
    case PutBack(q) => q != p
    case Closed(q) => true
  }

  ghost predicate LegalRun(w: World, steps: seq<Step>, interval: Option<nat>, p: string)
    decreases |steps|
  {
    p in w.files
    && (steps != [] ==> Legal(w, steps[0], p) && LegalRun(Next(w, steps[0], interval), steps[1..], interval, p))
  }

  /** The files that a round selects and fails to upload. */
  function Failed(w: World, step: Step, interval: Option<nat>): set<string> {
    if !step.Sync? then {}
    else set q | q in Paths(Selected(w.files, step.round, interval)) && !Succeeds(step.round.tries(q))
  }

  /** How many rounds find `p` overdue. */
  ghost function OverdueRounds(w: World, steps: seq<Step>, interval: Option<nat>, p: string): nat
    decreases |steps|
  {
    if steps == [] then 0
    else
      (if Overdue(w, steps[0], interval, p) then 1 else 0) + OverdueRounds(Next(w, steps[0], interval), steps[1..], interval, p)
  }

  /** How many uploads fail in the whole run. */
  ghost function Failures(w: World, steps: seq<Step>, interval: Option<nat>): nat
    decreases |steps|
  {
    if steps == [] then 0
    else |Failed(w, steps[0], interval)| + Failures(Next(w, steps[0], interval), steps[1..], interval)
  }

  lemma SyncedLater(w: World, round: Round, interval: Option<nat>, p: string, q: string)
    requires SaneWorld(w) && Legal(w, Sync(round), p) && q != p
    requires q in Paths(Selected(w.files, round, interval)) && Succeeds(round.tries(q))
    ensures var after := AfterRound(w.files, round, interval);
            q in after && w.files[p].lastSynced < after[q].lastSynced
  {
    hide Selected;
    SelectedFacts(w.files, round, interval);
  }

  lemma RivalsAfterRound(w: World, round: Round, interval: Option<nat>, p: string)
    requires SaneWorld(w) && Legal(w, Sync(round), p) && p !in Paths(Selected(w.files, round, interval))
    ensures var after, chosen := Next(w, Sync(round), interval), Paths(Selected(w.files, round, interval));
            && p in after.files && after.files[p] == w.files[p]
            && Rivals(after, p) <= Rivals(w, p) && RivalsAside(after, p) == RivalsAside(w, p)
            && Rivals(after, p) * chosen <= Failed(w, Sync(round), interval)
  {
    hide Selected, Takes, Paths, Unique;
    var after, chosen := Next(w, Sync(round), interval), Paths(Selected(w.files, round, interval));
    forall q | q in Rivals(after, p)
      ensures q in Rivals(w, p) && (q in chosen ==> q in Failed(w, Sync(round), interval))
    {
      if q in chosen && Succeeds(round.tries(q)) {
        SyncedLater(w, round, interval, p, q);
        assert false;
      }
    }
  }

  /** A round that passes `p` over leaves at most its failures of the sixteen rivals it selects. */
  lemma PassingCosts(w: World, round: Round, interval: Option<nat>, p: string)
    requires SaneWorld(w) && Legal(w, Sync(round), p) && interval.Some?
    requires Takes(w.files, round, interval, p) && p !in Paths(Selected(w.files, round, interval))
    ensures p in Next(w, Sync(round), interval).files
    ensures RivalCount(Next(w, Sync(round), interval), p) + SYNC_BATCH_SIZE <= RivalCount(w, p) + |Failed(w, Sync(round), interval)|
  {
    hide Selected, Takes, AfterRound, Unique;
    RivalsAfterRound(w, round, interval, p);
    PassedOver(w.files, round, interval, p);
    SelectedFacts(w.files, round, interval);
    var due := Selected(w.files, round, interval);
    PathsSize(due);
    assert Paths(due) <= Rivals(w, p) by {
      assert forall i :: 0 <= i < |due| ==> due[i] in due;
    }
    ChosenLeave(Rivals(w, p), Rivals(Next(w, Sync(round), interval), p), Paths(due), Failed(w, Sync(round), interval));
  }

  lemma ChosenLeave(before: set<string>, after: set<string>, chosen: set<string>, failed: set<string>)
    requires after <= before && chosen <= before && after * chosen <= failed
    ensures |after| + |chosen| <= |before| + |failed|
  {
    SubsetSize(after * chosen, failed);
    SubsetSize(after + chosen, before);
    assert |after + chosen| + |after * chosen| == |after| + |chosen|;
  }

  /** A rival moves between the two sets, and none appears. */
  lemma MovedCount(a: set<string>, b: set<string>, a': set<string>, b': set<string>, q: string)
    requires a' <= a - {q} && b' <= b + {q} && (q in b' && q !in b ==> q in a)
    ensures |a'| + |b'| <= |a| + |b|
  {
    SubsetSize(a', a - {q});
    if q in b' && q !in b {
      SubsetSize(b', b + {q});
    } else {
      SubsetSize(b', b);
    }
  }

  lemma ShrunkCount(a: set<string>, b: set<string>, a': set<string>, b': set<string>)
    requires a' <= a && b' <= b
    ensures |a'| + |b'| <= |a| + |b|
  {
    SubsetSize(a', a);
    SubsetSize(b', b);
  }

  /** Nothing but a round and a put-back can bring a rival into the cache, and a put-back only one that was aside. */
  lemma OtherCosts(w: World, step: Step, interval: Option<nat>, p: string)
    requires Legal(w, step, p) && !step.Sync?
    ensures p in Next(w, step, interval).files && RivalCount(Next(w, step, interval), p) <= RivalCount(w, p)
  {
    var after := Next(w, step, interval);
    assert after.files[p].lastSynced == w.files[p].lastSynced;
    var a, b, a', b' := Rivals(w, p), RivalsAside(w, p), Rivals(after, p), RivalsAside(after, p);
    match step
    case Discarded(q) => MovedCount(a, b, a', b', q);
    case PutBack(q) => MovedCount(b, a, b', a', q);
    case Opened(_, _) => ShrunkCount(a, b, a', b');
    case Used(_, _) => ShrunkCount(a, b, a', b');
    case UsedAside(_, _) => ShrunkCount(a, b, a', b');
    case Removed(_) => ShrunkCount(a, b, a', b');
    case Closed(_) => ShrunkCount(a, b, a', b');
  }

  lemma StepSane(w: World, step: Step, interval: Option<nat>, p: string)
    requires SaneWorld(w) && Legal(w, step, p)
    ensures SaneWorld(Next(w, step, interval))
  {
    hide AfterRound;
    if step.Sync? { RoundKeepsContent(w.files, step.round, interval); }
  }

  lemma StepCosts(w: World, step: Step, interval: Option<nat>, p: string)
    requires SaneWorld(w) && Legal(w, step, p) && interval.Some? && !Chosen(w, step, interval, p)
    ensures p in Next(w, step, interval).files
    ensures RivalCount(Next(w, step, interval), p) + (if Overdue(w, step, interval, p) then SYNC_BATCH_SIZE else 0)
            <= RivalCount(w, p) + |Failed(w, step, interval)|
  {
    hide Selected, Takes, AfterRound, Rivals, RivalsAside, Unique, Sane;
    if step.Sync? {
      if Overdue(w, step, interval, p) {
        PassingCosts(w, step.round, interval, p);
      } else {
        RivalsAfterRound(w, step.round, interval, p);
        var after := Next(w, step, interval);
        ShrunkCount(Rivals(w, p), RivalsAside(w, p), Rivals(after, p), RivalsAside(after, p));
      }
    } else {
      OtherCosts(w, step, interval, p);
    }
  }

  /**
    No starvation: however the rounds are mixed with files being opened, written, synced, removed,
    discarded and put back, the rounds that pass over an overdue file are paid for by the files that
    were as overdue as it and by failed uploads.
  */
  lemma {:induction false} StarvationBound(w: World, steps: seq<Step>, interval: Option<nat>, p: string)
    requires SaneWorld(w) && LegalRun(w, steps, interval, p) && interval.Some? && NeverChosen(w, steps, interval, p)
    ensures p in Run(w, steps, interval).files
    ensures SYNC_BATCH_SIZE * OverdueRounds(w, steps, interval, p) + RivalCount(Run(w, steps, interval), p)
            <= RivalCount(w, p) + Failures(w, steps, interval)
    decreases |steps|
  {
    hide Chosen, Overdue, Failed, Next, Legal, RivalCount, SaneWorld;
    if steps != [] {
      StepSane(w, steps[0], interval, p);
      StepCosts(w, steps[0], interval, p);
      StarvationBound(Next(w, steps[0], interval), steps[1..], interval, p);
    }
  }

  /** Some round selects `p` and uploads it. */
  ghost predicate SyncedSometime(w: World, steps: seq<Step>, interval: Option<nat>, p: string)
    decreases |steps|
  {
    steps != []
    && ((Chosen(w, steps[0], interval, p) && SyncedBy(Next(w, steps[0], interval), p))
        || SyncedSometime(Next(w, steps[0], interval), steps[1..], interval, p))
  }

  ghost predicate SyncedBy(w: World, p: string) {
    p in w.files && w.files[p].synced
  }

  lemma ChosenIsSynced(w: World, step: Step, interval: Option<nat>, p: string)
    requires SaneWorld(w) && Legal(w, step, p) && Chosen(w, step, interval, p) && |Failed(w, step, interval)| == 0
    ensures SyncedBy(Next(w, step, interval), p)
  {
    hide Selected, Unique;
    SelectedFacts(w.files, step.round, interval);
    assert p !in Failed(w, step, interval);
  }

  lemma {:induction false} SyncedUnlessPassed(w: World, steps: seq<Step>, interval: Option<nat>, p: string)
    requires SaneWorld(w) && LegalRun(w, steps, interval, p) && Failures(w, steps, interval) == 0
    ensures SyncedSometime(w, steps, interval, p) || NeverChosen(w, steps, interval, p)
    decreases |steps|
  {
    hide Chosen, Failed, Next, Legal, SyncedBy, SaneWorld;
    if steps != [] {
      StepSane(w, steps[0], interval, p);
      if Chosen(w, steps[0], interval, p) { ChosenIsSynced(w, steps[0], interval, p); }
      SyncedUnlessPassed(Next(w, steps[0], interval), steps[1..], interval, p);
    }
  }

  /** While uploads succeed an overdue file is synced within one round for every sixteen rivals, and one more. */
  lemma SyncedWithin(w: World, steps: seq<Step>, interval: Option<nat>, p: string)
    requires SaneWorld(w) && LegalRun(w, steps, interval, p) && interval.Some? && Failures(w, steps, interval) == 0
    requires RivalCount(w, p) / SYNC_BATCH_SIZE + 1 <= OverdueRounds(w, steps, interval, p)
    ensures SyncedSometime(w, steps, interval, p)
  {
    hide LegalRun, Failures, OverdueRounds, NeverChosen, SyncedSometime, RivalCount, Run, SaneWorld;
    SyncedUnlessPassed(w, steps, interval, p);
    if NeverChosen(w, steps, interval, p) { StarvationBound(w, steps, interval, p); }
  }
}
