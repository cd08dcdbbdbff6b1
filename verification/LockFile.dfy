/**
  The lock file that a primary and a secondary instance share. Every point at which the lock
  task awaits is a state of the machine below, so the other instance can act between any two.
*/
module LockFile {
  import opened Common

  /** Durations and times are in nanoseconds. */
  const SECOND: nat := 1_000_000_000

  datatype Role = Primary | Secondary

  datatype FailureAction = Proceed | Abort

  datatype Config = Config(polling: nat, timeout: nat, ttl: nat, action: FailureAction)

  datatype Status = Waiting | Locked | Failed

  /** The lock file: the instance whose identifier it holds and its time of modification. */
  datatype Lock = Lock(owner: Role, modified: nat)

  /** Where an instance is in its lock task. */
  datatype Pc =
    | Poll(start: nat)              // about to ask whether the file exists
    | Stat(start: nat)              // it did; about to read its age
    | Remove                        // it was stale; about to remove it
    | Timing(start: nat)            // it was not; about to check the timeout
    | Nap(start: nat, until: nat)   // sleeping before the next poll
    | Leave                         // out of the waiting loop
    | Settle(until: nat)            // the secondary's long sleep before its last check
    | Write                         // about to write the file
    | Rest(until: nat)              // sleeping before the owner check
    | Check                         // about to check the owner
    | Done

  datatype Instance = Instance(pc: Pc, status: Status)

  datatype State = State(now: nat, file: Option<Lock>, primary: Instance, secondary: Instance)

  /** The instance has left its waiting loop for good. */
  predicate Holding(i: Instance) {
    i.pc.Write? || i.pc.Rest? || i.pc.Check?
  }

  /** `last_modified.elapsed() > ttl`, when the time to live is at least a second */
  predicate Stale(cfg: Config, lock: Lock, now: nat) {
    lock.modified < now && now - lock.modified > cfg.ttl && cfg.ttl >= SECOND
  }

  predicate TimedOut(cfg: Config, start: nat, now: nat) {
    start < now && now - start > cfg.timeout && cfg.timeout >= SECOND
  }

  /** A sleeping instance moves on when its time has come. */
  predicate Awake(i: Instance, now: nat) {
    match i.pc
    case Nap(_, until) => until <= now
    case Settle(until) => until <= now
    case Rest(until) => until <= now
    case Done => false
    case _ => true
  }

  /** One step of an instance; `works` says whether a file operation succeeds. */
  function Move(cfg: Config, role: Role, i: Instance, file: Option<Lock>, now: nat, works: bool): (Instance, Option<Lock>) {
    match i.pc
    case Poll(start) => (i.(pc := if file.Some? then Stat(start) else Leave), file)
    case Stat(start) => (i.(pc := if file.Some? && Stale(cfg, file.value, now) then Remove else Timing(start)), file)
    case Remove => (i.(pc := Leave), if works then None else file)
    case Timing(start) =>
      if !TimedOut(cfg, start, now) then (i.(pc := Nap(start, now + cfg.polling)), file)
      else if cfg.action.Proceed? then (i.(pc := Leave), file)
      else (Instance(Done, Failed), file)
    case Nap(start, _) => (i.(pc := Poll(start)), file)
    case Leave => (i.(pc := if role.Primary? then Write else Settle(now + 3 * cfg.polling)), file)
    case Settle(_) => (i.(pc := if file.None? then Write else Poll(now)), file)
    case Write => (Instance(Rest(now + cfg.polling), Locked), if works then Some(Lock(role, now)) else file)
    case Rest(_) => (i.(pc := Check), file)
    case Check => (i.(pc := if role.Secondary? && file.Some? && file.value.owner != role then Done else Write), file)
    case Done => (i, file)
  }

  /** Time passes, an instance takes a step, or an instance is dropped: it stops, and removes the file whatever its state. */
  datatype Step = Tick(span: nat) | Act(role: Role, works: bool) | Drop(role: Role, works: bool)

  function Next(cfg: Config, s: State, step: Step): State {
    match step
    case Tick(span) => s.(now := s.now + span)
    case Act(Primary, works) =>
      var (i, file) := Move(cfg, Primary, s.primary, s.file, s.now, works);
      s.(primary := i, file := file)
    case Act(Secondary, works) =>
      var (i, file) := Move(cfg, Secondary, s.secondary, s.file, s.now, works);
      s.(secondary := i, file := file)
    case Drop(role, works) =>
      var s' := s.(file := if works then None else s.file);
      if role.Primary? then s'.(primary := s.primary.(pc := Done)) else s'.(secondary := s.secondary.(pc := Done))
  }

  // ----- runs in which the primary keeps refreshing the file -----

  /** The time of the primary's last write goes along with the state. */
  datatype Traced = Traced(s: State, written: nat)

  function After(cfg: Config, t: Traced, step: Step): Traced {
    Traced(Next(cfg, t.s, step), if step == Act(Primary, true) && t.s.primary.pc.Write? then t.s.now else t.written)
  }

  /** An instance acts when awake, nothing is dropped, the writes of the primary succeed and are at most `gap` apart. */
  predicate Allowed(t: Traced, step: Step, gap: nat) {
    match step
    case Tick(span) => t.s.now + span <= t.written + gap
    case Act(Primary, works) => Awake(t.s.primary, t.s.now) && (t.s.primary.pc.Write? ==> works)
    case Act(Secondary, _) => Awake(t.s.secondary, t.s.now)
    case Drop(_, _) => false
  }

  ghost predicate AllowedRun(cfg: Config, t: Traced, steps: seq<Step>, gap: nat)
    decreases |steps|
  {
    steps != [] ==> Allowed(t, steps[0], gap) && AllowedRun(cfg, After(cfg, t, steps[0]), steps[1..], gap)
  }

  ghost function Run(cfg: Config, t: Traced, steps: seq<Step>): Traced
    decreases |steps|
  {
    if steps == [] then t else Run(cfg, After(cfg, t, steps[0]), steps[1..])
  }

  /** The primary has just written the file; the secondary has not got past its last check. */
  predicate JustWritten(cfg: Config, t: Traced) {
    && t.s.primary.pc == Rest(t.written + cfg.polling) && t.s.file == Some(Lock(Primary, t.written)) && t.s.now == t.written
    && !Holding(t.s.secondary) && !t.s.secondary.status.Locked?
  }

  // ----- the file is never taken away -----

  /** The primary's file can become stale before it is written again. */
  predicate CanGoStale(cfg: Config, gap: nat) {
    SECOND <= cfg.ttl < gap
  }

  /** The primary's file is there and too young to be stale; the secondary has no removal pending. */
  predicate Kept(t: Traced, gap: nat) {
    && Holding(t.s.primary) && t.s.file == Some(Lock(Primary, t.written))
    && t.written <= t.s.now <= t.written + gap
    && !Holding(t.s.secondary) && !t.s.secondary.pc.Remove? && !t.s.secondary.status.Locked?
  }

  lemma StepKeeps(cfg: Config, t: Traced, step: Step, gap: nat)
    requires Kept(t, gap) && !CanGoStale(cfg, gap) && Allowed(t, step, gap)
    ensures Kept(After(cfg, t, step), gap)
  {
  }

  /**
    In every interleaving, once the primary has written the file and while it refreshes it within
    the time to live, a secondary with no removal pending never removes the file and never locks.
  */
  lemma {:induction false} NeverTaken(cfg: Config, t: Traced, steps: seq<Step>, gap: nat)
    requires Kept(t, gap) && !CanGoStale(cfg, gap) && AllowedRun(cfg, t, steps, gap)
    ensures Kept(Run(cfg, t, steps), gap)
    decreases |steps|
  {
    hide Kept, Allowed, After;
    if steps != [] {
      StepKeeps(cfg, t, steps[0], gap);
      NeverTaken(cfg, After(cfg, t, steps[0]), steps[1..], gap);
    }
  }

  // ----- the lock is never shared -----

  /**
    The secondary is before its last check; and if the file is missing then the secondary is
    about to sleep, or sleeps for longer than the primary takes to write the file again.
  */
  predicate Guarded(t: Traced, gap: nat) {
    && Holding(t.s.primary) && t.written <= t.s.now <= t.written + gap
    && !Holding(t.s.secondary) && !t.s.secondary.status.Locked?
    && (t.s.file.None? ==>
          t.s.secondary.pc.Leave? || (t.s.secondary.pc.Settle? && t.written + gap < t.s.secondary.pc.until))
  }

  lemma StepGuards(cfg: Config, t: Traced, step: Step, gap: nat)
    requires Guarded(t, gap) && gap < 3 * cfg.polling && Allowed(t, step, gap)
    ensures Guarded(After(cfg, t, step), gap)
  {
  }

  /** When refreshes are less than three polling intervals apart the secondary never locks, whatever it removes. */
  lemma {:induction false} NeverShared(cfg: Config, t: Traced, steps: seq<Step>, gap: nat)
    requires Guarded(t, gap) && gap < 3 * cfg.polling && AllowedRun(cfg, t, steps, gap)
    ensures Guarded(Run(cfg, t, steps), gap)
    decreases |steps|
  {
    hide Guarded, Allowed, After;
    if steps != [] {
      StepGuards(cfg, t, steps[0], gap);
      NeverShared(cfg, After(cfg, t, steps[0]), steps[1..], gap);
    }
  }

  // ----- exactly when both can hold the lock -----

  /** Some interleaving lets the secondary become Locked beside the primary. */
  ghost predicate CanShare(cfg: Config, t: Traced, gap: nat) {
    exists steps :: AllowedRun(cfg, t, steps, gap) && Run(cfg, t, steps).s.secondary.status.Locked?
  }

  /** What can happen after a step can happen before it. */
  lemma SharedBefore(cfg: Config, t: Traced, step: Step, gap: nat)
    requires Allowed(t, step, gap) && CanShare(cfg, After(cfg, t, step), gap)
    ensures CanShare(cfg, t, gap)
  {
    hide Allowed, After;
    var rest :| AllowedRun(cfg, After(cfg, t, step), rest, gap) && Run(cfg, After(cfg, t, step), rest).s.secondary.status.Locked?;
    var steps := [step] + rest;
    assert steps[1..] == rest;
    assert AllowedRun(cfg, t, steps, gap) && Run(cfg, t, steps).s.secondary.status.Locked?;
  }

  lemma SharedNow(cfg: Config, t: Traced, gap: nat)
    requires t.s.secondary.status.Locked?
    ensures CanShare(cfg, t, gap)
  {
    var none: seq<Step> := [];
    assert AllowedRun(cfg, t, none, gap) && Run(cfg, t, none) == t;
  }

  /** A pending removal takes the new file, and the secondary wakes before it is written again. */
  lemma PendingRemovalShares(cfg: Config, t: Traced, gap: nat)
    requires JustWritten(cfg, t) && t.s.secondary.pc.Remove? && 3 * cfg.polling <= gap
    ensures CanShare(cfg, t, gap)
  {
    hide CanShare;
    var act, tick := Act(Secondary, true), Tick(3 * cfg.polling);
    var t1 := After(cfg, t, act);
    var t2 := After(cfg, t1, act);
    var t3 := After(cfg, t2, tick);
    var t4 := After(cfg, t3, act);
    assert t1.s.file.None? && t1.s.secondary.pc.Leave?;
    assert t2.s.secondary.pc == Settle(t.s.now + 3 * cfg.polling);
    assert t4.s.secondary.pc.Write?;
    SharedNow(cfg, After(cfg, t4, act), gap);
    SharedBefore(cfg, t4, act, gap);
    SharedBefore(cfg, t3, act, gap);
    SharedBefore(cfg, t2, tick, gap);
    SharedBefore(cfg, t1, act, gap);
    SharedBefore(cfg, t, act, gap);
  }

  /** The primary wakes and writes; the secondary stays where it is. */
  lemma PrimaryWrites(cfg: Config, t: Traced, gap: nat) returns (t': Traced)
    requires t.s.primary.pc.Rest? && Awake(t.s.primary, t.s.now)
    requires !Holding(t.s.secondary) && !t.s.secondary.status.Locked?
    ensures JustWritten(cfg, t') && t'.s.secondary == t.s.secondary && t'.s.now == t.s.now
    ensures CanShare(cfg, t', gap) ==> CanShare(cfg, t, gap)
  {
    hide CanShare;
    var act := Act(Primary, true);
    var t1 := After(cfg, t, act);
    var t2 := After(cfg, t1, act);
    t' := After(cfg, t2, act);
    if CanShare(cfg, t', gap) {
      SharedBefore(cfg, t2, act, gap);
      SharedBefore(cfg, t1, act, gap);
      SharedBefore(cfg, t, act, gap);
    }
  }

  /** The secondary looks at the file when it is stale; then the primary writes it, and the removal is still to come. */
  lemma StaleLookShares(cfg: Config, t: Traced, gap: nat)
    requires JustWritten(cfg, t) && (t.s.secondary.pc.Poll? || t.s.secondary.pc.Stat?)
    requires CanGoStale(cfg, gap) && 3 * cfg.polling <= gap
    ensures CanShare(cfg, t, gap)
  {
    hide CanShare;
    var act, tick := Act(Secondary, true), Tick(Max(cfg.ttl + 1, cfg.polling));
    var t1 := After(cfg, t, tick);
    var t2 := if t1.s.secondary.pc.Poll? then After(cfg, t1, act) else t1;
    assert t2.s.secondary.pc.Stat? && t2.s.file == t.s.file && Stale(cfg, t2.s.file.value, t2.s.now);
    var t3 := After(cfg, t2, act);
    assert t3.s.secondary.pc.Remove?;
    var t4 := PrimaryWrites(cfg, t3, gap);
    PendingRemovalShares(cfg, t4, gap);
    SharedBefore(cfg, t2, act, gap);
    if t1.s.secondary.pc.Poll? { SharedBefore(cfg, t1, act, gap); }
    SharedBefore(cfg, t, tick, gap);
  }

  /** The secondary takes a step that leaves the file alone. */
  lemma SecondaryMoves(cfg: Config, t: Traced, gap: nat) returns (t': Traced)
    requires JustWritten(cfg, t) && Awake(t.s.secondary, t.s.now) && !t.s.secondary.pc.Remove?
    ensures t' == After(cfg, t, Act(Secondary, true)) && JustWritten(cfg, t')
    ensures CanShare(cfg, t', gap) ==> CanShare(cfg, t, gap)
  {
    hide CanShare;
    t' := After(cfg, t, Act(Secondary, true));
    if CanShare(cfg, t', gap) { SharedBefore(cfg, t, Act(Secondary, true), gap); }
  }

  /** While the secondary sleeps the primary refreshes the file, until the secondary wakes and looks. */
  lemma {:induction false} SleeperShares(cfg: Config, t: Traced, gap: nat, until: nat)
    requires JustWritten(cfg, t) && (t.s.secondary.pc.Nap? || t.s.secondary.pc.Settle?) && t.s.secondary.pc.until == until
    requires CanGoStale(cfg, gap) && 3 * cfg.polling <= gap
    ensures CanShare(cfg, t, gap)
    decreases if t.s.now < until then until - t.s.now else 0
  {
    hide CanShare;
    if until <= t.s.now {
      var t1 := SecondaryMoves(cfg, t, gap);
      StaleLookShares(cfg, t1, gap);
    } else {
      var t1 := After(cfg, t, Tick(gap));
      var t2 := PrimaryWrites(cfg, t1, gap);
      SleeperShares(cfg, t2, gap, until);
      SharedBefore(cfg, t, Tick(gap), gap);
    }
  }

  lemma LeaverShares(cfg: Config, t: Traced, gap: nat)
    requires JustWritten(cfg, t) && t.s.secondary.pc.Leave? && CanGoStale(cfg, gap) && 3 * cfg.polling <= gap
    ensures CanShare(cfg, t, gap)
  {
    hide CanShare;
    var t1 := SecondaryMoves(cfg, t, gap);
    SleeperShares(cfg, t1, gap, t1.s.secondary.pc.until);
  }

  /** The secondary has ended, or its next step ends it because it timed out and aborts. */
  predicate Finished(cfg: Config, i: Instance, now: nat) {
    i.pc.Done? || (i.pc.Timing? && TimedOut(cfg, i.pc.start, now) && cfg.action.Abort?)
  }

  lemma TimerShares(cfg: Config, t: Traced, gap: nat)
    requires JustWritten(cfg, t) && t.s.secondary.pc.Timing? && !Finished(cfg, t.s.secondary, t.s.now)
    requires CanGoStale(cfg, gap) && 3 * cfg.polling <= gap
    ensures CanShare(cfg, t, gap)
  {
    hide CanShare;
    var t1 := SecondaryMoves(cfg, t, gap);
    if t1.s.secondary.pc.Leave? { LeaverShares(cfg, t1, gap); } else { SleeperShares(cfg, t1, gap, t1.s.secondary.pc.until); }
  }

  lemma {:induction false} FinishedNeverLocks(cfg: Config, t: Traced, steps: seq<Step>, gap: nat)
    requires Finished(cfg, t.s.secondary, t.s.now) && !t.s.secondary.status.Locked? && AllowedRun(cfg, t, steps, gap)
    ensures !Run(cfg, t, steps).s.secondary.status.Locked?
    decreases |steps|
  {
    if steps != [] { FinishedNeverLocks(cfg, After(cfg, t, steps[0]), steps[1..], gap); }
  }

  lemma SomeoneShares(cfg: Config, t: Traced, gap: nat)
    requires JustWritten(cfg, t) && !t.s.secondary.pc.Remove? && !Finished(cfg, t.s.secondary, t.s.now)
    requires CanGoStale(cfg, gap) && 3 * cfg.polling <= gap
    ensures CanShare(cfg, t, gap)
  {
    hide CanShare;
    match t.s.secondary.pc
    case Poll(_) => StaleLookShares(cfg, t, gap);
    case Stat(_) => StaleLookShares(cfg, t, gap);
    case Timing(_) => TimerShares(cfg, t, gap);
    case Nap(_, until) => SleeperShares(cfg, t, gap, until);
    case Leave => LeaverShares(cfg, t, gap);
    case Settle(until) => SleeperShares(cfg, t, gap, until);
  }

  /**
    The exact condition for a shared lock, from the primary's first write on and for refreshes any
    distance apart: three polling intervals fit between two refreshes, and either the secondary is
    about to remove a file it had found stale, or it is not finished and the file can become stale
    between two refreshes.
  */
  lemma SharedIff(cfg: Config, t: Traced, gap: nat)
    requires JustWritten(cfg, t)
    ensures CanShare(cfg, t, gap)
            <==> 3 * cfg.polling <= gap
                 && (t.s.secondary.pc.Remove? || (CanGoStale(cfg, gap) && !Finished(cfg, t.s.secondary, t.s.now)))
  {
    hide AllowedRun, Run;
    if gap < 3 * cfg.polling {
      forall steps | AllowedRun(cfg, t, steps, gap)
        ensures !Run(cfg, t, steps).s.secondary.status.Locked?
      {
        NeverShared(cfg, t, steps, gap);
      }
    } else if t.s.secondary.pc.Remove? {
      PendingRemovalShares(cfg, t, gap);
    } else if Finished(cfg, t.s.secondary, t.s.now) {
      forall steps | AllowedRun(cfg, t, steps, gap)
        ensures !Run(cfg, t, steps).s.secondary.status.Locked?
      {
        FinishedNeverLocks(cfg, t, steps, gap);
      }
    } else if CanGoStale(cfg, gap) {
      SomeoneShares(cfg, t, gap);
    } else {
      forall steps | AllowedRun(cfg, t, steps, gap)
        ensures !Run(cfg, t, steps).s.secondary.status.Locked?
      {
        NeverTaken(cfg, t, steps, gap);
      }
    }
  }

  // ----- what takes the file away -----

  /**
    Of all steps, exactly two take the primary's fresh file away: a pending removal by the secondary,
    and dropping either instance, in whatever state it is, be it failed or still waiting.
  */
  lemma TakenIff(cfg: Config, t: Traced, step: Step)
    requires JustWritten(cfg, t)
    ensures After(cfg, t, step).s.file.None?
            <==> (step == Act(Secondary, true) && t.s.secondary.pc.Remove?) || (step.Drop? && step.works)
  {
  }

  /** A dropped secondary never locks, and the file it took is back with the primary's next write. */
  lemma DroppedSecondary(cfg: Config, t: Traced, works: bool, steps: seq<Step>, gap: nat)
    requires JustWritten(cfg, t) && AllowedRun(cfg, After(cfg, t, Drop(Secondary, works)), steps, gap)
    ensures var r := Run(cfg, After(cfg, t, Drop(Secondary, works)), steps);
            !r.s.secondary.status.Locked? && (t.written < r.written ==> r.s.file == Some(Lock(Primary, r.written)))
  {
    hide AllowedRun, Run;
    var dropped := After(cfg, t, Drop(Secondary, works));
    PrimaryAlone(cfg, dropped, steps, gap, t.written);
  }

  /** With the secondary gone, the file is the primary's once the primary has written again. */
  predicate Alone(t: Traced, since: nat) {
    && t.s.secondary.pc.Done? && !t.s.secondary.status.Locked? && Holding(t.s.primary) && since <= t.written <= t.s.now
    && (since < t.written ==> t.s.file == Some(Lock(Primary, t.written)))
  }

  lemma {:induction false} PrimaryAlone(cfg: Config, t: Traced, steps: seq<Step>, gap: nat, since: nat)
    requires Alone(t, since) && AllowedRun(cfg, t, steps, gap)
    ensures Alone(Run(cfg, t, steps), since)
    decreases |steps|
  {
    if steps != [] {
      AloneKept(cfg, t, steps[0], gap, since);
      PrimaryAlone(cfg, After(cfg, t, steps[0]), steps[1..], gap, since);
    }
  }

  lemma AloneKept(cfg: Config, t: Traced, step: Step, gap: nat, since: nat)
    requires Alone(t, since) && Allowed(t, step, gap)
    ensures Alone(After(cfg, t, step), since)
  {
  }

  function Acts(cfg: Config, s: State, role: Role, times: nat): State {
    if times == 0 then s else Next(cfg, Acts(cfg, s, role, times - 1), Act(role, true))
  }

  /** The pending removal does occur: both instances find the same old file stale, and the primary is faster. */
  lemma RaceArises(cfg: Config, stale: Lock, start: nat, now: nat)
    requires Stale(cfg, stale, now)
    ensures var begin := State(now, Some(stale), Instance(Poll(start), Waiting), Instance(Poll(start), Waiting));
            var race := Acts(cfg, Acts(cfg, begin, Secondary, 2), Primary, 5);
            JustWritten(cfg, Traced(race, now)) && race.secondary.pc.Remove?
  {
    var begin := State(now, Some(stale), Instance(Poll(start), Waiting), Instance(Poll(start), Waiting));
    var found := Acts(cfg, begin, Secondary, 2);
    assert found == begin.(secondary := Instance(Remove, Waiting)) by {
      assert Acts(cfg, begin, Secondary, 1) == begin.(secondary := Instance(Stat(start), Waiting));
    }
    assert Acts(cfg, found, Primary, 1) == found.(primary := Instance(Stat(start), Waiting));
    assert Acts(cfg, found, Primary, 2) == found.(primary := Instance(Remove, Waiting));
    assert Acts(cfg, found, Primary, 3) == found.(primary := Instance(Leave, Waiting), file := None);
    assert Acts(cfg, found, Primary, 4) == found.(primary := Instance(Write, Waiting), file := None);
  }

  // ----- waiting -----

  /** Neither instance has failed, and if one is waiting it began at `since` or later. */
  predicate WaitsSince(i: Instance, since: nat) {
    && !i.status.Failed?
    && (match i.pc
        case Poll(start) => since <= start
        case Stat(start) => since <= start
        case Timing(start) => since <= start
        case Nap(start, _) => since <= start
        case _ => true)
  }

  /** At its check a waiting instance goes on if and only if no timeout of a second or more has passed. */
  lemma GivesUpIff(cfg: Config, role: Role, i: Instance, file: Option<Lock>, now: nat, works: bool)
    requires i.pc.Timing?
    ensures var next := Move(cfg, role, i, file, now, works).0;
            && (next.pc == Nap(i.pc.start, now + cfg.polling) <==> cfg.timeout < SECOND || now <= i.pc.start + cfg.timeout)
            && (!next.pc.Nap? ==> if cfg.action.Abort? then next == Instance(Done, Failed) else next == i.(pc := Leave))
  {
  }

  lemma WaitStep(cfg: Config, t: Traced, step: Step, since: nat)
    requires since <= t.s.now && WaitsSince(t.s.primary, since) && WaitsSince(t.s.secondary, since)
    ensures var r := After(cfg, t, step).s;
            && t.s.now <= r.now
            && ((WaitsSince(r.primary, since) && WaitsSince(r.secondary, since))
                || (cfg.action.Abort? && SECOND <= cfg.timeout && since + cfg.timeout < r.now))
  {
  }

  lemma {:induction false} TimePasses(cfg: Config, t: Traced, steps: seq<Step>)
    ensures t.s.now <= Run(cfg, t, steps).s.now
    decreases |steps|
  {
    if steps != [] { TimePasses(cfg, After(cfg, t, steps[0]), steps[1..]); }
  }

  /** Whatever happens, no instance fails before the timeout has passed since it began to wait, and none ever does that proceeds. */
  lemma {:induction false} FailsLate(cfg: Config, t: Traced, steps: seq<Step>, since: nat)
    requires since <= t.s.now && WaitsSince(t.s.primary, since) && WaitsSince(t.s.secondary, since)
    ensures var r := Run(cfg, t, steps).s;
            r.primary.status.Failed? || r.secondary.status.Failed? ==>
              cfg.action.Abort? && SECOND <= cfg.timeout && since + cfg.timeout < r.now
    decreases |steps|
  {
    hide After;
    if steps != [] {
      var next := After(cfg, t, steps[0]);
      WaitStep(cfg, t, steps[0], since);
      TimePasses(cfg, next, steps[1..]);
      if WaitsSince(next.s.primary, since) && WaitsSince(next.s.secondary, since) { FailsLate(cfg, next, steps[1..], since); }
    }
  }

  // ----- acquiring, refreshing and stopping -----

  /** Without a file a primary at its poll has the lock three steps later. */
  lemma PrimaryAcquires(cfg: Config, s: State, start: nat)
    requires s.file.None? && s.primary.pc == Poll(start)
    ensures Acts(cfg, s, Primary, 3)
            == s.(primary := Instance(Rest(s.now + cfg.polling), Locked), file := Some(Lock(Primary, s.now)))
  {
    assert Acts(cfg, s, Primary, 1) == s.(primary := s.primary.(pc := Leave));
    assert Acts(cfg, s, Primary, 2) == s.(primary := s.primary.(pc := Write));
  }

  /** A secondary first sleeps for three polling intervals. */
  lemma SecondarySettles(cfg: Config, s: State, start: nat)
    requires s.file.None? && s.secondary.pc == Poll(start)
    ensures Acts(cfg, s, Secondary, 2) == s.(secondary := s.secondary.(pc := Settle(s.now + 3 * cfg.polling)))
  {
    assert Acts(cfg, s, Secondary, 1) == s.(secondary := s.secondary.(pc := Leave));
  }

  /** After its sleep a secondary has the lock two steps later if and only if there is still no file; otherwise it waits anew. */
  lemma SecondaryAcquiresIff(cfg: Config, s: State)
    requires s.secondary.pc.Settle? && !s.secondary.status.Locked?
    ensures Acts(cfg, s, Secondary, 2).secondary.status.Locked? <==> s.file.None?
    ensures if s.file.None? then Acts(cfg, s, Secondary, 2).file == Some(Lock(Secondary, s.now))
            else Acts(cfg, s, Secondary, 1) == s.(secondary := s.secondary.(pc := Poll(s.now)))
  {
    assert Acts(cfg, s, Secondary, 1) == s.(secondary := s.secondary.(pc := if s.file.None? then Write else Poll(s.now)));
  }

  /** Whatever has become of the file, the primary has written it again three steps after its rest. */
  lemma PrimaryRefreshes(cfg: Config, s: State)
    requires s.primary.pc.Rest?
    ensures Acts(cfg, s, Primary, 3)
            == s.(primary := Instance(Rest(s.now + cfg.polling), Locked), file := Some(Lock(Primary, s.now)))
  {
    assert Acts(cfg, s, Primary, 1) == s.(primary := s.primary.(pc := Check));
    assert Acts(cfg, s, Primary, 2) == s.(primary := s.primary.(pc := Write));
  }

  /** An instance takes itself to hold the lock even if it could not write the file. */
  lemma WriteFails(cfg: Config, role: Role, i: Instance, file: Option<Lock>, now: nat)
    requires i.pc.Write?
    ensures Move(cfg, role, i, file, now, false) == (Instance(Rest(now + cfg.polling), Locked), file)
  {
  }

  /** A secondary that holds the lock goes on refreshing the file if and only if it does not find the primary's identifier in it. */
  lemma SecondaryYieldsIff(cfg: Config, s: State)
    requires s.secondary.pc.Rest?
    ensures var r := Acts(cfg, s, Secondary, 2);
            r == s.(secondary := s.secondary.(pc := if s.file.Some? && s.file.value.owner == Primary then Done else Write))
  {
    assert Acts(cfg, s, Secondary, 1) == s.(secondary := s.secondary.(pc := Check));
  }

  function InstanceOf(s: State, role: Role): Instance {
    if role.Primary? then s.primary else s.secondary
  }

  lemma {:induction false} StoppedStays(cfg: Config, t: Traced, role: Role, steps: seq<Step>)
    requires InstanceOf(t.s, role).pc.Done?
    ensures InstanceOf(Run(cfg, t, steps).s, role) == InstanceOf(t.s, role)
    decreases |steps|
  {
    if steps != [] { StoppedStays(cfg, After(cfg, t, steps[0]), role, steps[1..]); }
  }

  /** A dropped instance never does anything again, and the other one is not affected. */
  lemma DroppedStays(cfg: Config, t: Traced, role: Role, works: bool, steps: seq<Step>)
    ensures var dropped := After(cfg, t, Drop(role, works));
            && InstanceOf(Run(cfg, dropped, steps).s, role) == InstanceOf(t.s, role).(pc := Done)
            && forall other :: other != role ==> InstanceOf(dropped.s, other) == InstanceOf(t.s, other)
  {
    StoppedStays(cfg, After(cfg, t, Drop(role, works)), role, steps);
  }
}
