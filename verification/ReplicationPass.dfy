/**
  A pass of the replication sender as a state machine. The main task prepares one entry's
  batch while a single spawned task sends the previous one; the environment may append
  transactions at any moment.
*/
module ReplicationPass {
  import opened Common
  import opened Replication

  /** Whether the transaction log of an entry can be locked and read. */
  datatype Front = Ready | Unreadable | LockError

  datatype Preparation = Batch(p: Prepared) | Nothing | Broken | Internal

  /** A `write_batch` call on the remote bucket. */
  datatype Call = Call(entry: string, batch: seq<Sent>)

  datatype SyncState =
    | SyncedOrRemoved(counter: seq<Count>)
    | NotAvailable(counter: seq<Count>)
    | NoTransactions
    | BrokenLog(entry: string)
    | Failed

  /** Where the main task is: before preparing entry `i`, or with entry `i` prepared and a send to join. */
  datatype Main = Preparing(i: nat) | Joining(i: nat, result: Preparation) | Returned(state: SyncState)

  /** The spawned send, between its atomic steps. */
  datatype Task =
    | Idle
    | Spawned(p: Prepared)
    | Popping(p: Prepared, counter: seq<Count>, popped: nat)
    | Done(counter: seq<Count>, active: bool)
    | Crashed

  /** A batch that the bucket answered, and how many of its transactions were then removed from the log. */
  datatype Delivery = Delivery(p: Prepared, active: bool, popped: nat)

  datatype State = State(
    logs: map<string, seq<Txn>>,
    entries: seq<string>,
    main: Main,
    task: Task,
    counter: seq<Count>,
    calls: seq<Call>,
    // history of the run
    appended: map<string, seq<Txn>>,
    deliveries: seq<Delivery>,
    passStart: nat,
    fair: bool)

  datatype Config = Config(maxRecords: nat, maxSize: nat)

  datatype Action =
    | Prepare(front: Front, results: seq<ReadResult>)
    | Join
    | Finish
    | Send(reply: Reply)
    | Pop
    | Append(entry: string, txn: Txn)
    | StartPass(entries: seq<string>)

  // ----- the steps -----

  function LogOf(logs: map<string, seq<Txn>>, e: string): seq<Txn> {
    if e in logs then logs[e] else []
  }

  function FrontOf(log: seq<Txn>, n: nat): (r: seq<Txn>)
    ensures r == log[..Min(n, |log|)]
  {
    if |log| <= n then log else log[..n]
  }

  function MakeState(counter: seq<Count>, active: bool): SyncState {
    if counter == [] then NoTransactions
    else if active then SyncedOrRemoved(counter)
    else NotAvailable(counter)
  }

  /** `prepare_batch`: it only looks at the log. */
  function PrepareEntry(c: Config, logs: map<string, seq<Txn>>, e: string, front: Front, results: seq<ReadResult>): Preparation
    requires |results| == |FrontOf(LogOf(logs, e), c.maxRecords)|
  {
    if e !in logs then Nothing
    else
      match front
      case LockError => Internal
      case Unreadable => Broken
      case Ready =>
        var txns := FrontOf(logs[e], c.maxRecords);
        if txns == [] then Nothing else Batch(Fill(Empty(e), txns, results, c.maxSize))
  }

  /** The main task looks at what it prepared, with no send in flight. */
  function Decide(s: State, i: nat, result: Preparation): State
    requires i < |s.entries|
  {
    match result
    case Batch(p) => s.(task := Spawned(p), main := Preparing(i + 1))
    case Nothing => s.(task := Idle, main := Preparing(i + 1))
    case Broken => s.(task := Idle, main := Returned(BrokenLog(s.entries[i])))
    case Internal => s.(task := Idle, main := Returned(Failed))
  }

  ghost predicate Enabled(c: Config, s: State, a: Action) {
    match a
    case Prepare(_, results) =>
      s.main.Preparing? && s.main.i < |s.entries|
      && |results| == |FrontOf(LogOf(s.logs, s.entries[s.main.i]), c.maxRecords)|
    case Join => s.main.Joining? && s.main.i < |s.entries| && (s.task.Idle? || s.task.Done? || s.task.Crashed?)
    case Finish => s.main.Preparing? && s.main.i == |s.entries| && (s.task.Idle? || s.task.Done? || s.task.Crashed?)
    case Send(_) => s.task.Spawned?
    case Pop => s.task.Popping?
    case Append(_, _) => true
    case StartPass(entries) =>
      s.main.Returned? && Unique(entries) && forall e :: e in entries <==> e in s.logs
  }

  ghost function Next(c: Config, s: State, a: Action): State
    requires Enabled(c, s, a)
  {
    match a
    case Prepare(front, results) =>
      s.(main := Joining(s.main.i, PrepareEntry(c, s.logs, s.entries[s.main.i], front, results)))
    case Join =>
      if s.task.Done? then
        var counter := s.counter + s.task.counter;
        if !s.task.active then s.(counter := counter, task := Idle, main := Returned(MakeState(counter, false)))
        else Decide(s.(counter := counter), s.main.i, s.main.result)
      else Decide(s, s.main.i, s.main.result)
    case Finish =>
      var counter := if s.task.Done? then s.counter + s.task.counter else s.counter;
      s.(counter := counter, task := Idle,
         main := Returned(MakeState(counter, if s.task.Done? then s.task.active else true)))
    case Send(reply) => SendStep(s, s.task.p, reply)
    case Pop =>
      var p := s.task.p;
      s.(logs := s.logs[p.entry := DropFront(LogOf(s.logs, p.entry), s.task.popped)], task := Done(s.task.counter, true))
    case Append(e, txn) =>
      s.(logs := s.logs[e := LogOf(s.logs, e) + [txn]], appended := s.appended[e := LogOf(s.appended, e) + [txn]])
    case StartPass(entries) =>
      s.(entries := entries, main := Preparing(0), task := Idle, counter := [], passStart := |s.deliveries|, fair := true)
  }

  function DropFront(log: seq<Txn>, n: nat): seq<Txn> {
    if |log| <= n then [] else log[n..]
  }

  /** How many transactions leave the log after an answer. */
  function Removed(p: Prepared, reply: Reply): nat
    requires reply.Answer?
  {
    if !reply.active then 0 else if reply.popped < |p.taken| then reply.popped else |p.taken|
  }

  /** `send_batch` up to the point where the log is popped. */
  ghost function SendStep(s: State, p: Prepared, reply: Reply): State {
    match reply
    case Panic => s.(task := Crashed, calls := s.calls + [Call(p.entry, p.batch)], fair := false)
    case LockFailed => s.(task := Done(p.counter, false), fair := false)
    case Answer(result, active, _) =>
      var s' := s.(calls := s.calls + [Call(p.entry, p.batch)],
                   deliveries := s.deliveries + [Delivery(p, active, Removed(p, reply))],
                   fair := s.fair && FairResult(p, result));
      var counter := SendCounter(p, result);
      s'.(task := if active then Popping(p, counter, Removed(p, reply)) else Done(counter, false))
  }

  /** The states after each action of a run. */
  ghost predicate Runs(c: Config, s: State, actions: seq<Action>)
    decreases |actions|
  {
    actions == [] || (Enabled(c, s, actions[0]) && Runs(c, Next(c, s, actions[0]), actions[1..]))
  }

  ghost function After(c: Config, s: State, actions: seq<Action>): State
    requires Runs(c, s, actions)
    decreases |actions|
  {
    if actions == [] then s else After(c, Next(c, s, actions[0]), actions[1..])
  }

  function Initial(): State {
    State(map[], [], Returned(NoTransactions), Idle, [], [], map[], [], 0, true)
  }

  // ----- what is removed from the logs -----

  /** The transactions of entry `e` that acknowledged deliveries removed, in order. */
  function Acknowledged(deliveries: seq<Delivery>, e: string): seq<Txn> {
    if deliveries == [] then []
    else
      var d := deliveries[|deliveries| - 1];
      var front := Acknowledged(deliveries[..|deliveries| - 1], e);
      if d.p.entry == e && d.active && d.popped <= |d.p.taken| then front + d.p.taken[..d.popped] else front
  }

  /** The deliveries whose transactions have left the logs: all but one that is still being popped. */
  function Settled(s: State): seq<Delivery> {
    if s.task.Popping? && s.deliveries != [] then s.deliveries[..|s.deliveries| - 1] else s.deliveries
  }

  ghost predicate TaskPending(s: State) {
    s.task.Spawned? || s.task.Popping?
  }

  ghost predicate FromFront(c: Config, p: Prepared, logs: map<string, seq<Txn>>) {
    p.entry in logs && p.taken <= logs[p.entry] && Partition(p) && Bounded(p.batch, c.maxSize)
  }

  /** Every log is what was appended to it without the acknowledged front. */
  ghost predicate LogsAccounted(s: State) {
    forall e :: LogOf(s.appended, e) == Acknowledged(Settled(s), e) + LogOf(s.logs, e)
  }

  /** The prepared and the pending batch are fronts of their logs, and of different entries. */
  ghost predicate BatchesInPlace(c: Config, s: State) {
    && (TaskPending(s) ==> FromFront(c, s.task.p, s.logs))
    && (s.main.Joining? && s.main.result.Batch? ==> FromFront(c, s.main.result.p, s.logs))
    && (s.main.Joining? ==> s.main.i < |s.entries| && (s.main.result.Batch? ==> s.main.result.p.entry == s.entries[s.main.i]))
    && (s.main.Preparing? ==> s.main.i <= |s.entries|)
  }

  /** The pending batch belongs to an entry the main task has already passed. */
  ghost predicate TaskBehind(s: State) {
    TaskPending(s) && !s.main.Returned? ==> exists j :: 0 <= j < s.main.i <= |s.entries| && s.entries[j] == s.task.p.entry
  }

  ghost predicate PoppingLast(s: State) {
    s.task.Popping? ==>
      s.deliveries != [] &&
      var d := s.deliveries[|s.deliveries| - 1];
      d.p == s.task.p && d.active && d.popped == s.task.popped <= |d.p.taken|
  }

  /** Every delivered batch was split from its transactions and kept the size limit. */
  ghost predicate DeliveriesSound(c: Config, s: State) {
    forall i :: 0 <= i < |s.deliveries| ==> Partition(s.deliveries[i].p) && Bounded(s.deliveries[i].p.batch, c.maxSize)
  }

  ghost predicate Inv(c: Config, s: State) {
    && Unique(s.entries)
    && LogsAccounted(s) && BatchesInPlace(c, s) && TaskBehind(s) && PoppingLast(s) && DeliveriesSound(c, s)
    && (s.main.Returned? ==> s.task.Idle?)
  }

  lemma InitialInv(c: Config)
    ensures Inv(c, Initial())
  {
  }

  lemma EmptyPartition(e: string)
    ensures Partition(Empty(e))
  {
    assert SplitBy(Empty(e), []);
  }

  /** What is prepared comes from the front of the log. */
  lemma PreparedFromFront(c: Config, logs: map<string, seq<Txn>>, e: string, front: Front, results: seq<ReadResult>)
    requires |results| == |FrontOf(LogOf(logs, e), c.maxRecords)|
    ensures var r := PrepareEntry(c, logs, e, front, results);
            r.Batch? ==> FromFront(c, r.p, logs) && r.p.entry == e && r.p.taken != []
  {
    hide Partition, Fill, Bounded;
    EmptyPartition(e);
    EmptyBounded(e, c.maxSize);
    if e in logs {
      var txns := FrontOf(logs[e], c.maxRecords);
      FillKeeps(Empty(e), txns, results, c.maxSize);
      assert Empty(e).taken + txns == txns;
    }
  }

  lemma EmptyBounded(e: string, maxSize: nat)
    ensures Bounded(Empty(e).batch, maxSize) && Open(Empty(e).batch, maxSize)
  {
  }

  lemma PrepareInv(c: Config, s: State, a: Action)
    requires Inv(c, s) && a.Prepare? && Enabled(c, s, a)
    ensures Inv(c, Next(c, s, a))
  {
    hide PrepareEntry, FromFront, Acknowledged, Unique, Partition, Bounded;
    PreparedFromFront(c, s.logs, s.entries[s.main.i], a.front, a.results);
  }

  /** The collected results play no part in the invariant. */
  lemma CounterInv(c: Config, s: State, counter: seq<Count>)
    requires Inv(c, s)
    ensures Inv(c, s.(counter := counter))
  {
    hide FromFront, Acknowledged, Unique, Partition, Bounded;
    var s' := s.(counter := counter);
    assert Settled(s') == Settled(s);
    assert LogsAccounted(s');
  }

  /** A pass returns once no send is in flight. */
  lemma ReturnInv(c: Config, s: State, state: SyncState)
    requires Inv(c, s) && !TaskPending(s)
    ensures Inv(c, s.(task := Idle, main := Returned(state)))
  {
    hide FromFront, Acknowledged, Unique, Partition, Bounded;
    var s' := s.(task := Idle, main := Returned(state));
    assert Settled(s') == Settled(s);
    assert LogsAccounted(s');
  }

  lemma SkipInv(c: Config, s: State)
    requires Inv(c, s) && !TaskPending(s) && s.main.Joining?
    ensures Inv(c, s.(task := Idle, main := Preparing(s.main.i + 1)))
  {
    hide FromFront, Acknowledged, Unique, Partition, Bounded;
    var s' := s.(task := Idle, main := Preparing(s.main.i + 1));
    assert Settled(s') == Settled(s);
    assert LogsAccounted(s');
  }

  lemma SpawnInv(c: Config, s: State)
    requires Inv(c, s) && !TaskPending(s) && s.main.Joining? && s.main.result.Batch?
    ensures Inv(c, s.(task := Spawned(s.main.result.p), main := Preparing(s.main.i + 1)))
  {
    hide FromFront, Acknowledged, Unique, Partition, Bounded;
    var s' := s.(task := Spawned(s.main.result.p), main := Preparing(s.main.i + 1));
    assert Settled(s') == Settled(s);
    assert LogsAccounted(s');
    assert s'.entries[s.main.i] == s'.task.p.entry;
  }

  /** What the main task does with what it prepared. */
  lemma DecideInv(c: Config, s: State)
    requires Inv(c, s) && !TaskPending(s) && s.main.Joining? && s.main.i < |s.entries|
    ensures Inv(c, Decide(s, s.main.i, s.main.result))
  {
    hide Inv;
    match s.main.result
    case Batch(p) => SpawnInv(c, s);
    case Nothing => SkipInv(c, s);
    case Broken => ReturnInv(c, s, BrokenLog(s.entries[s.main.i]));
    case Internal => ReturnInv(c, s, Failed);
  }

  lemma JoinInv(c: Config, s: State)
    requires Inv(c, s) && Enabled(c, s, Join)
    ensures Inv(c, Next(c, s, Join))
  {
    hide Inv, Decide, MakeState;
    if s.task.Done? {
      var s' := s.(counter := s.counter + s.task.counter);
      CounterInv(c, s, s'.counter);
      if s.task.active { DecideInv(c, s'); } else { ReturnInv(c, s', MakeState(s'.counter, false)); }
    } else {
      DecideInv(c, s);
    }
  }

  lemma EndInv(c: Config, s: State, a: Action)
    requires Inv(c, s) && (a.Finish? || a.StartPass?) && Enabled(c, s, a)
    ensures Inv(c, Next(c, s, a))
  {
    hide FromFront, Acknowledged, Unique, Partition, Bounded, MakeState;
    var s' := Next(c, s, a);
    assert Settled(s') == Settled(s);
    assert LogsAccounted(s');
  }

  lemma SendInv(c: Config, s: State, a: Action)
    requires Inv(c, s) && a.Send? && Enabled(c, s, a)
    ensures Inv(c, Next(c, s, a))
  {
    hide Acknowledged, Unique, SendCounter, FairResult, Partition, Bounded;
    var s' := Next(c, s, a);
    var ds := s'.deliveries;
    if a.reply.Answer? {
      assert ds[..|ds| - 1] == s.deliveries;
      if !a.reply.active {
        forall e
          ensures Acknowledged(ds, e) == Acknowledged(s.deliveries, e)
        {
          InactiveAcknowledgesNothing(s.deliveries, ds[|ds| - 1], e);
        }
      }
    }
  }

  /** A delivery after which the bucket is inactive removes nothing. */
  lemma InactiveAcknowledgesNothing(ds: seq<Delivery>, d: Delivery, e: string)
    requires !d.active
    ensures Acknowledged(ds + [d], e) == Acknowledged(ds, e)
  {
    assert (ds + [d])[..|ds|] == ds;
  }

  lemma AcknowledgedLast(ds: seq<Delivery>, e: string)
    requires ds != []
    ensures var d := ds[|ds| - 1];
            Acknowledged(ds, e) == Acknowledged(ds[..|ds| - 1], e)
              + (if d.p.entry == e && d.active && d.popped <= |d.p.taken| then d.p.taken[..d.popped] else [])
  {
  }

  lemma PopLog(log: seq<Txn>, taken: seq<Txn>, n: nat)
    requires taken <= log && n <= |taken|
    ensures log == taken[..n] + DropFront(log, n)
  {
    assert taken[..n] == log[..n];
  }

  lemma PopLogs(c: Config, s: State)
    requires Inv(c, s) && s.task.Popping?
    ensures LogsAccounted(Next(c, s, Pop))
  {
    hide Acknowledged, Unique, Partition, Bounded, TaskBehind, DeliveriesSound, DropFront;
    var s' := Next(c, s, Pop);
    forall e
      ensures LogOf(s'.appended, e) == Acknowledged(Settled(s'), e) + LogOf(s'.logs, e)
    {
      assert LogOf(s.appended, e) == Acknowledged(Settled(s), e) + LogOf(s.logs, e);
      PopAcknowledges(s.deliveries, s.task.p, s.task.popped, LogOf(s.logs, e), e);
    }
  }

  /** The popped front moves from the log to what is acknowledged. */
  lemma PopAcknowledges(ds: seq<Delivery>, p: Prepared, n: nat, log: seq<Txn>, e: string)
    requires ds != [] && ds[|ds| - 1] == Delivery(p, true, n) && n <= |p.taken| && (e == p.entry ==> p.taken <= log)
    ensures Acknowledged(ds[..|ds| - 1], e) + log == Acknowledged(ds, e) + (if e == p.entry then DropFront(log, n) else log)
  {
    hide Acknowledged, DropFront;
    AcknowledgedLast(ds, e);
    var front := Acknowledged(ds[..|ds| - 1], e);
    if e == p.entry {
      PopLog(log, p.taken, n);
      assert front + (p.taken[..n] + DropFront(log, n)) == (front + p.taken[..n]) + DropFront(log, n);
    } else {
      assert front + [] == front;
    }
  }

  lemma PopInv(c: Config, s: State)
    requires Inv(c, s) && s.task.Popping?
    ensures Inv(c, Next(c, s, Pop))
  {
    hide Acknowledged, Unique, Partition, Bounded;
    var s' := Next(c, s, Pop);
    PopLogs(c, s);
    hide LogsAccounted;
    if s.main.Joining? && s.main.result.Batch? {
      OtherEntry(c, s);
    }
  }

  lemma OtherEntry(c: Config, s: State)
    requires Inv(c, s) && TaskPending(s) && s.main.Joining?
    ensures s.entries[s.main.i] != s.task.p.entry
  {
    hide LogsAccounted, PoppingLast, FromFront;
    var j :| 0 <= j < s.main.i <= |s.entries| && s.entries[j] == s.task.p.entry;
  }

  lemma AppendLogs(c: Config, s: State, e: string, txn: Txn)
    requires Inv(c, s)
    ensures LogsAccounted(Next(c, s, Append(e, txn)))
  {
    hide Acknowledged, Unique, Partition, Bounded, BatchesInPlace, TaskBehind, PoppingLast, DeliveriesSound;
    var s' := Next(c, s, Append(e, txn));
    forall x
      ensures LogOf(s'.appended, x) == Acknowledged(Settled(s'), x) + LogOf(s'.logs, x)
    {
      assert LogOf(s.appended, x) == Acknowledged(Settled(s), x) + LogOf(s.logs, x);
      assert Settled(s') == Settled(s);
    }
  }

  lemma AppendInv(c: Config, s: State, e: string, txn: Txn)
    requires Inv(c, s)
    ensures Inv(c, Next(c, s, Append(e, txn)))
  {
    hide LogsAccounted, Unique, Partition, Bounded;
    AppendLogs(c, s, e, txn);
  }

  lemma StepInv(c: Config, s: State, a: Action)
    requires Inv(c, s) && Enabled(c, s, a)
    ensures Inv(c, Next(c, s, a))
  {
    hide Inv, Next;
    match a
    case Prepare(_, _) => PrepareInv(c, s, a);
    case Join => JoinInv(c, s);
    case Finish => EndInv(c, s, a);
    case Send(_) => SendInv(c, s, a);
    case Pop => PopInv(c, s);
    case Append(e, txn) => AppendInv(c, s, e, txn);
    case StartPass(_) => EndInv(c, s, a);
  }

  /** What every interleaving of passes and appends keeps. */
  lemma {:induction false} RunInv(c: Config, s: State, actions: seq<Action>)
    requires Inv(c, s) && Runs(c, s, actions)
    ensures Inv(c, After(c, s, actions))
    decreases |actions|
  {
    hide Inv, Next, Enabled;
    if actions != [] {
      StepInv(c, s, actions[0]);
      RunInv(c, Next(c, s, actions[0]), actions[1..]);
    }
  }

  /** `txn` failed its local read, or was in a batch of `e` after whose send the bucket was active. */
  ghost predicate Justified(ds: seq<Delivery>, e: string, txn: Txn) {
    exists i, k, results :: 0 <= i < |ds| && JustifiedBy(ds[i], e, txn, k, results)
  }

  ghost predicate JustifiedBy(d: Delivery, e: string, txn: Txn, k: int, results: seq<ReadResult>) {
    && d.p.entry == e && d.active && SplitBy(d.p, results)
    && 0 <= k < |d.p.taken| && d.p.taken[k] == txn
    && (results[k].ReadFailed? || Sent(txn, results[k].size) in d.p.batch)
  }

  lemma DeliveryJustifies(d: Delivery, k: nat) returns (results: seq<ReadResult>)
    requires d.active && Partition(d.p) && k < |d.p.taken|
    ensures JustifiedBy(d, d.p.entry, d.p.taken[k], k, results)
  {
    hide Readable, FailedReads, SumSizes, BatchBytes;
    results :| SplitBy(d.p, results);
    TakenIsSentOrFailed(d.p.taken, results, k);
  }

  lemma {:induction false} AcknowledgedJustified(ds: seq<Delivery>, e: string, k: nat)
    requires forall i :: 0 <= i < |ds| ==> Partition(ds[i].p)
    requires k < |Acknowledged(ds, e)|
    ensures Justified(ds, e, Acknowledged(ds, e)[k])
  {
    hide Partition, JustifiedBy;
    var front := ds[..|ds| - 1];
    var d := ds[|ds| - 1];
    var n := |Acknowledged(front, e)|;
    if k < n {
      AcknowledgedJustified(front, e, k);
      var i, j, results :| 0 <= i < |front| && JustifiedBy(front[i], e, Acknowledged(front, e)[k], j, results);
      assert JustifiedBy(ds[i], e, Acknowledged(ds, e)[k], j, results);
    } else {
      var results := DeliveryJustifies(d, k - n);
      assert JustifiedBy(ds[|ds| - 1], e, Acknowledged(ds, e)[k], k - n, results);
    }
  }

  /**
    In every interleaving of passes with appends, each log is everything ever appended to it
    minus an acknowledged front, and every transaction in that front failed its local read or
    was in a batch after whose send the bucket was active.
  */
  lemma AcknowledgedFront(c: Config, actions: seq<Action>, e: string)
    requires Runs(c, Initial(), actions)
    ensures var s := After(c, Initial(), actions);
            var acked := Acknowledged(Settled(s), e);
            && LogOf(s.appended, e) == acked + LogOf(s.logs, e)
            && forall k :: 0 <= k < |acked| ==> Justified(Settled(s), e, acked[k])
  {
    hide Runs, After, Partition, Justified, Acknowledged, Bounded;
    InitialInv(c);
    RunInv(c, Initial(), actions);
    var s := After(c, Initial(), actions);
    var ds := Settled(s);
    assert LogsAccounted(s);
    forall k | 0 <= k < |Acknowledged(ds, e)|
      ensures Justified(ds, e, Acknowledged(ds, e)[k])
    {
      AcknowledgedJustified(ds, e, k);
    }
  }

  /** Only popping after an answer from an active bucket shortens a log, and only that of the sent entry. */
  lemma OnlyPopRemoves(c: Config, s: State, a: Action, e: string)
    requires Inv(c, s) && Enabled(c, s, a)
    requires !(LogOf(s.logs, e) <= LogOf(Next(c, s, a).logs, e))
    ensures a.Pop? && e == s.task.p.entry && s.deliveries != []
    ensures s.deliveries[|s.deliveries| - 1].active && s.deliveries[|s.deliveries| - 1].p == s.task.p
  {
    hide PrepareEntry, SendCounter, FairResult, LogsAccounted, BatchesInPlace, TaskBehind, DeliveriesSound, Unique;
  }

  // ----- the pipelined pass refines the sequential one -----

  /** A fixed environment: what the logs, the storage and the bucket answer. */
  datatype World = World(front: string -> Front, read: (string, Txn) -> ReadResult, reply: seq<Call> -> Reply)

  datatype PassResult = PassResult(logs: map<string, seq<Txn>>, state: SyncState, calls: seq<Call>)

  /** The outcome of a send task: the logs and calls it leaves, and how it ends. */
  datatype Settlement = Settlement(logs: map<string, seq<Txn>>, calls: seq<Call>, task: Task)

  ghost function ReadAll(w: World, e: string, txns: seq<Txn>): (r: seq<ReadResult>)
    ensures |r| == |txns|
  {
    seq(|txns|, i requires 0 <= i < |txns| => w.read(e, txns[i]))
  }

  ghost function PrepareIn(c: Config, w: World, logs: map<string, seq<Txn>>, e: string): Preparation {
    PrepareEntry(c, logs, e, w.front(e), ReadAll(w, e, FrontOf(LogOf(logs, e), c.maxRecords)))
  }

  /** Sending a batch from start to end. */
  ghost function SendWhole(w: World, logs: map<string, seq<Txn>>, calls: seq<Call>, p: Prepared): Settlement {
    var calls' := calls + [Call(p.entry, p.batch)];
    var reply := w.reply(calls');
    match reply
    case Panic => Settlement(logs, calls', Crashed)
    case LockFailed => Settlement(logs, calls, Done(p.counter, false))
    case Answer(result, active, _) =>
      Settlement(if active then logs[p.entry := DropFront(LogOf(logs, p.entry), Removed(p, reply))] else logs,
                 calls', Done(SendCounter(p, result), active))
  }

  /** The simple pass: prepare an entry, send it, look at the outcome, go on to the next entry. */
  ghost function Sequential(c: Config, w: World, logs: map<string, seq<Txn>>, entries: seq<string>, i: nat,
                            counter: seq<Count>, calls: seq<Call>): PassResult
    decreases |entries| - i
  {
    if i >= |entries| then PassResult(logs, MakeState(counter, true), calls)
    else
      match PrepareIn(c, w, logs, entries[i])
      case Nothing => Sequential(c, w, logs, entries, i + 1, counter, calls)
      case Broken => PassResult(logs, BrokenLog(entries[i]), calls)
      case Internal => PassResult(logs, Failed, calls)
      case Batch(p) =>
        var sent := SendWhole(w, logs, calls, p);
        if sent.task.Done? && !sent.task.active then
          PassResult(sent.logs, MakeState(counter + sent.task.counter, false), sent.calls)
        else
          Sequential(c, w, sent.logs, entries, i + 1, counter + TaskCounter(sent.task), sent.calls)
  }

  function TaskCounter(t: Task): seq<Count> {
    if t.Done? then t.counter else []
  }

  ghost predicate Conforms(c: Config, w: World, s: State, a: Action) {
    match a
    case Prepare(front, results) =>
      s.main.Preparing? && s.main.i < |s.entries| &&
      (var e := s.entries[s.main.i]; front == w.front(e) && results == ReadAll(w, e, FrontOf(LogOf(s.logs, e), c.maxRecords)))
    case Send(reply) => s.task.Spawned? && reply == w.reply(s.calls + [Call(s.task.p.entry, s.task.p.batch)])
    case Append(_, _) => false
    case StartPass(_) => false
    case _ => true
  }

  /** A run of one pass in a fixed environment. */
  ghost predicate PassRuns(c: Config, w: World, s: State, actions: seq<Action>)
    decreases |actions|
  {
    actions == [] ||
    (Enabled(c, s, actions[0]) && Conforms(c, w, s, actions[0]) && PassRuns(c, w, Next(c, s, actions[0]), actions[1..]))
  }

  ghost function PassAfter(c: Config, w: World, s: State, actions: seq<Action>): State
    requires PassRuns(c, w, s, actions)
    decreases |actions|
  {
    if actions == [] then s else PassAfter(c, w, Next(c, s, actions[0]), actions[1..])
  }

  /** The send in flight, run to its end. */
  ghost function Settle(w: World, s: State): Settlement {
    match s.task
    case Spawned(p) => SendWhole(w, s.logs, s.calls, p)
    case Popping(p, counter, popped) =>
      Settlement(s.logs[p.entry := DropFront(LogOf(s.logs, p.entry), popped)], s.calls, Done(counter, true))
    case _ => Settlement(s.logs, s.calls, s.task)
  }

  /** What the pass comes to if, from here on, everything happens one after the other. */
  ghost function Completion(c: Config, w: World, s: State): PassResult {
    if s.main.Returned? then PassResult(s.logs, s.main.state, s.calls)
    else
      var t := Settle(w, s);
      if t.task.Done? && !t.task.active then
        PassResult(t.logs, MakeState(s.counter + t.task.counter, false), t.calls)
      else
        Sequential(c, w, t.logs, s.entries, s.main.i, s.counter + TaskCounter(t.task), t.calls)
  }

  /** A prepared batch is still what the log would give now. */
  ghost predicate Fresh(c: Config, w: World, s: State) {
    s.main.Joining? ==> s.main.i < |s.entries| && s.main.result == PrepareIn(c, w, s.logs, s.entries[s.main.i])
  }

  lemma NoCounter(counter: seq<Count>)
    ensures counter + [] == counter
  {
  }

  lemma PrepareCompletes(c: Config, w: World, s: State, a: Action)
    requires a.Prepare? && Enabled(c, s, a) && Conforms(c, w, s, a)
    ensures Completion(c, w, Next(c, s, a)) == Completion(c, w, s) && Fresh(c, w, Next(c, s, a))
  {
    hide PrepareEntry, Sequential, SendWhole;
  }

  lemma DecideCompletes(c: Config, w: World, s: State)
    requires s.main.Joining? && s.main.i < |s.entries| && (s.task.Idle? || s.task.Crashed?)
    requires s.main.result == PrepareIn(c, w, s.logs, s.entries[s.main.i])
    ensures Completion(c, w, Decide(s, s.main.i, s.main.result)) == Completion(c, w, s)
  {
    hide PrepareIn, SendWhole;
    NoCounter(s.counter);
  }

  lemma JoinCompletes(c: Config, w: World, s: State)
    requires Enabled(c, s, Join) && Fresh(c, w, s)
    ensures Completion(c, w, Next(c, s, Join)) == Completion(c, w, s) && Fresh(c, w, Next(c, s, Join))
  {
    hide PrepareIn, SendWhole, Sequential;
    if s.task.Done? {
      if s.task.active {
        var s' := s.(counter := s.counter + s.task.counter, task := Idle);
        NoCounter(s'.counter);
        DecideCompletes(c, w, s');
        assert Decide(s', s.main.i, s.main.result) == Next(c, s, Join);
      }
    } else {
      DecideCompletes(c, w, s);
    }
  }

  lemma FinishCompletes(c: Config, w: World, s: State)
    requires Enabled(c, s, Finish)
    ensures Completion(c, w, Next(c, s, Finish)) == Completion(c, w, s)
  {
    hide PrepareIn, SendWhole;
    NoCounter(s.counter);
  }

  lemma SendCompletes(c: Config, w: World, s: State, a: Action)
    requires a.Send? && Enabled(c, s, a) && Conforms(c, w, s, a) && Fresh(c, w, s) && !s.main.Returned?
    ensures Completion(c, w, Next(c, s, a)) == Completion(c, w, s) && Fresh(c, w, Next(c, s, a))
  {
    hide PrepareIn, Sequential, Settle, MakeState;
    SendSettles(c, w, s, a);
  }

  /** However a send is answered, it comes to the same end, and the main task is where it was. */
  lemma SendSettles(c: Config, w: World, s: State, a: Action)
    requires a.Send? && Enabled(c, s, a) && Conforms(c, w, s, a)
    ensures var s' := Next(c, s, a);
            Settle(w, s') == Settle(w, s) && s'.main == s.main && s'.logs == s.logs && s'.entries == s.entries && s'.counter == s.counter
  {
    hide SendCounter, FairResult;
  }

  lemma PopCompletes(c: Config, w: World, s: State)
    requires Inv(c, s) && s.task.Popping? && Fresh(c, w, s) && !s.main.Returned?
    ensures Completion(c, w, Next(c, s, Pop)) == Completion(c, w, s) && Fresh(c, w, Next(c, s, Pop))
  {
    hide Sequential, Inv, Fill;
    var s' := Next(c, s, Pop);
    assert Settle(w, s') == Settle(w, s);
    if s.main.Joining? {
      OtherEntry(c, s);
    }
  }

  lemma StillRunning(c: Config, s: State)
    requires Inv(c, s) && !s.task.Idle?
    ensures !s.main.Returned?
  {
  }

  lemma StepCompletes(c: Config, w: World, s: State, a: Action)
    requires Inv(c, s) && Fresh(c, w, s) && Enabled(c, s, a) && Conforms(c, w, s, a)
    ensures Completion(c, w, Next(c, s, a)) == Completion(c, w, s) && Fresh(c, w, Next(c, s, a))
  {
    hide Inv, Completion;
    match a
    case Prepare(_, _) => PrepareCompletes(c, w, s, a);
    case Join => JoinCompletes(c, w, s);
    case Finish => FinishCompletes(c, w, s);
    case Send(_) => StillRunning(c, s); SendCompletes(c, w, s, a);
    case Pop => StillRunning(c, s); PopCompletes(c, w, s);
  }

  lemma {:induction false} RunCompletes(c: Config, w: World, s: State, actions: seq<Action>)
    requires Inv(c, s) && Fresh(c, w, s) && PassRuns(c, w, s, actions)
    ensures Completion(c, w, PassAfter(c, w, s, actions)) == Completion(c, w, s)
    ensures Inv(c, PassAfter(c, w, s, actions))
    decreases |actions|
  {
    hide Inv, Next, Enabled, Completion, Conforms, Fresh;
    if actions != [] {
      StepInv(c, s, actions[0]);
      StepCompletes(c, w, s, actions[0]);
      RunCompletes(c, w, Next(c, s, actions[0]), actions[1..]);
    }
  }

  ghost predicate PassBegins(s: State) {
    s.main == Preparing(0) && s.task.Idle? && s.counter == []
  }

  /**
    However the send task is scheduled, a pass that returns made the same calls in the same
    order, left the same logs and returned the same state as the sequential pass, and no send
    is in flight any more.
  */
  lemma PipelineRefinesSequential(c: Config, w: World, s: State, actions: seq<Action>)
    requires Inv(c, s) && PassBegins(s) && PassRuns(c, w, s, actions)
    requires PassAfter(c, w, s, actions).main.Returned?
    ensures var s' := PassAfter(c, w, s, actions);
            && PassResult(s'.logs, s'.main.state, s'.calls) == Sequential(c, w, s.logs, s.entries, 0, [], s.calls)
            && s'.task.Idle?
  {
    hide Sequential, PassRuns, PassAfter;
    RunCompletes(c, w, s, actions);
    NoCounter([]);
  }

  /** How much of the pass is left. */
  function Work(s: State): int {
    (match s.main
     case Returned(_) => 0
     case Preparing(i) => 10 * (|s.entries| - i) + 6
     case Joining(i, _) => 10 * (|s.entries| - i) + 5)
    + (match s.task case Spawned(_) => 3 case Popping(_, _, _) => 2 case Done(_, _) => 1 case Crashed => 1 case Idle => 0)
  }

  lemma StepShrinks(c: Config, w: World, s: State, a: Action)
    requires Inv(c, s) && !s.main.Returned? && Enabled(c, s, a) && Conforms(c, w, s, a)
    ensures 0 <= Work(Next(c, s, a)) < Work(s)
  {
    hide PrepareEntry, Inv, ReadAll, Decide, SendStep, Work;
    MainInPlace(c, s);
    match a {
      case Join => JoinShrinks(c, s);
      case Send(reply) => SendShrinks(s, reply);
      case _ => OtherShrinks(c, w, s, a);
    }
  }

  lemma MainInPlace(c: Config, s: State)
    requires Inv(c, s)
    ensures s.main.Preparing? || s.main.Joining? ==> s.main.i <= |s.entries|
  {
    hide LogsAccounted, TaskBehind, PoppingLast, DeliveriesSound, Unique, FromFront;
  }

  lemma JoinShrinks(c: Config, s: State)
    requires Enabled(c, s, Join)
    ensures 0 <= Work(Next(c, s, Join)) < Work(s)
  {
    hide MakeState;
  }

  lemma SendShrinks(s: State, reply: Reply)
    requires s.task.Spawned? && (s.main.Preparing? || s.main.Joining? ==> s.main.i <= |s.entries|)
    ensures 0 <= Work(SendStep(s, s.task.p, reply)) < Work(s)
  {
    hide SendCounter, FairResult, Removed;
  }

  lemma OtherShrinks(c: Config, w: World, s: State, a: Action)
    requires !a.Join? && !a.Send? && Enabled(c, s, a) && Conforms(c, w, s, a) && !s.main.Returned?
    requires s.main.Preparing? || s.main.Joining? ==> s.main.i <= |s.entries|
    ensures 0 <= Work(Next(c, s, a)) < Work(s)
  {
    hide PrepareEntry, ReadAll, MakeState, Unique, DropFront;
  }

  lemma SomeStep(c: Config, w: World, s: State) returns (a: Action)
    requires Inv(c, s) && !s.main.Returned?
    ensures Enabled(c, s, a) && Conforms(c, w, s, a)
  {
    hide LogsAccounted, TaskBehind, PoppingLast, DeliveriesSound, Unique, FromFront;
    if s.task.Spawned? {
      a := Send(w.reply(s.calls + [Call(s.task.p.entry, s.task.p.batch)]));
    } else if s.task.Popping? {
      a := Pop;
    } else if s.main.Joining? {
      a := Join;
    } else if s.main.i == |s.entries| {
      a := Finish;
    } else {
      var e := s.entries[s.main.i];
      a := Prepare(w.front(e), ReadAll(w, e, FrontOf(LogOf(s.logs, e), c.maxRecords)));
    }
  }

  /** A pass never gets stuck: until it returns, some step is possible, and every step leaves less to do. */
  lemma PassProgresses(c: Config, w: World, s: State)
    requires Inv(c, s) && !s.main.Returned?
    ensures exists a :: Enabled(c, s, a) && Conforms(c, w, s, a)
    ensures forall a :: Enabled(c, s, a) && Conforms(c, w, s, a) ==> 0 <= Work(Next(c, s, a)) < Work(s)
  {
    hide Inv, Work, Next, Conforms;
    var a := SomeStep(c, w, s);
    forall b | Enabled(c, s, b) && Conforms(c, w, s, b)
      ensures 0 <= Work(Next(c, s, b)) < Work(s)
    {
      StepShrinks(c, w, s, b);
    }
  }

  // ----- accounting of a pass -----

  /** The deliveries of the current pass. */
  function ThisPass(s: State): seq<Delivery> {
    if s.passStart <= |s.deliveries| then s.deliveries[s.passStart..] else []
  }

  function TakenCount(ds: seq<Delivery>): nat {
    if ds == [] then 0 else TakenCount(ds[..|ds| - 1]) + |ds[|ds| - 1].p.taken|
  }

  function ReadBytes(ds: seq<Delivery>): nat {
    if ds == [] then 0 else ReadBytes(ds[..|ds| - 1]) + BatchBytes(ds[|ds| - 1].p.batch)
  }

  /** The accounting that the send task has ready but the main task has not merged yet. */
  function Pending(t: Task): seq<Count> {
    match t
    case Popping(_, counter, _) => counter
    case Done(counter, _) => counter
    case _ => []
  }

  ghost predicate Balanced(counter: seq<Count>, ds: seq<Delivery>) {
    Records(counter) == TakenCount(ds) && Bytes(counter) <= ReadBytes(ds)
  }

  ghost predicate Accounted(s: State) {
    && s.passStart <= |s.deliveries|
    && (s.fair ==> Balanced(s.counter + Pending(s.task), ThisPass(s)))
    && (s.main.Returned? && (s.main.state.SyncedOrRemoved? || s.main.state.NotAvailable?) ==> s.main.state.counter == s.counter)
  }

  lemma EmptyBalance()
    ensures Balanced([], [])
  {
  }

  lemma SendAccounted(c: Config, s: State, a: Action)
    requires Inv(c, s) && Accounted(s) && a.Send? && Enabled(c, s, a)
    ensures Accounted(Next(c, s, a))
  {
    hide Inv, Accounted, SendStep;
    PendingPartition(c, s);
    if a.reply.Answer? { AnswerAccounted(s, a.reply); } else { UnansweredAccounted(s, a.reply); }
  }

  lemma UnansweredAccounted(s: State, reply: Reply)
    requires Accounted(s) && s.task.Spawned? && !reply.Answer?
    ensures Accounted(SendStep(s, s.task.p, reply))
  {
    hide Balanced;
  }

  lemma AnswerAccounted(s: State, reply: Reply)
    requires Accounted(s) && s.task.Spawned? && reply.Answer? && Partition(s.task.p)
    ensures Accounted(SendStep(s, s.task.p, reply))
  {
    hide Balanced, SendCounter, FairResult, Partition, Removed;
    var s' := SendStep(s, s.task.p, reply);
    NoCounter(s.counter);
    var ds, d := ThisPass(s), Delivery(s.task.p, reply.active, Removed(s.task.p, reply));
    assert ThisPass(s') == ds + [d];
    if s'.fair { AnswerBalances(s.counter, ds, d, reply.result); }
  }

  lemma PendingPartition(c: Config, s: State)
    requires Inv(c, s) && s.task.Spawned?
    ensures Partition(s.task.p)
  {
    hide LogsAccounted, TaskBehind, PoppingLast, DeliveriesSound, Unique, Partition, Bounded;
  }

  /** A fair answer keeps the balance of what is counted and what was taken. */
  lemma AnswerBalances(counter: seq<Count>, ds: seq<Delivery>, d: Delivery, result: WriteResult)
    requires Balanced(counter, ds) && Partition(d.p) && FairResult(d.p, result)
    ensures Balanced(counter + SendCounter(d.p, result), ds + [d])
  {
    hide SendCounter, FairResult, Records, Bytes, BatchBytes, Partition;
    AnswerAccounts(d.p, result);
    CountsAppend(counter, SendCounter(d.p, result));
    assert (ds + [d])[..|ds|] == ds;
  }

  lemma OtherAccounted(c: Config, s: State, a: Action)
    requires Accounted(s) && !a.Send? && Enabled(c, s, a)
    requires s.task.Crashed? ==> !s.fair
    ensures Accounted(Next(c, s, a))
  {
    hide Balanced, PrepareEntry, Unique, Records, Bytes, TakenCount, ReadBytes, BatchBytes;
    NoCounter(s.counter);
    match a {
      case StartPass(_) => StartAccounted(c, s, a);
      case Join => JoinAccounted(c, s);
      case Finish => FinishAccounted(c, s);
      case _ => {}
    }
  }

  lemma StartAccounted(c: Config, s: State, a: Action)
    requires a.StartPass? && Enabled(c, s, a)
    ensures Accounted(Next(c, s, a))
  {
    hide Balanced, Unique;
    EmptyBalance();
    NoCounter([]);
    assert s.deliveries[|s.deliveries|..] == [];
  }

  lemma JoinAccounted(c: Config, s: State)
    requires Accounted(s) && Enabled(c, s, Join) && (s.task.Crashed? ==> !s.fair)
    ensures Accounted(Next(c, s, Join))
  {
    hide Balanced;
    NoCounter(s.counter);
    if s.task.Done? { NoCounter(s.counter + s.task.counter); }
  }

  lemma FinishAccounted(c: Config, s: State)
    requires Accounted(s) && Enabled(c, s, Finish) && (s.task.Crashed? ==> !s.fair)
    ensures Accounted(Next(c, s, Finish))
  {
    hide Balanced;
    NoCounter(s.counter);
    if s.task.Done? { NoCounter(s.counter + s.task.counter); }
  }

  ghost predicate AccountInv(c: Config, s: State) {
    Inv(c, s) && Accounted(s) && (s.task.Crashed? ==> !s.fair)
  }

  lemma CrashedUnfair(c: Config, s: State, a: Action)
    requires Enabled(c, s, a) && (s.task.Crashed? ==> !s.fair)
    ensures Next(c, s, a).task.Crashed? ==> !Next(c, s, a).fair
  {
    hide PrepareEntry, SendCounter, FairResult, Unique;
  }

  lemma {:induction false} RunAccounted(c: Config, s: State, actions: seq<Action>)
    requires AccountInv(c, s) && Runs(c, s, actions)
    ensures AccountInv(c, After(c, s, actions))
    decreases |actions|
  {
    hide Inv, Next, Enabled, Accounted;
    if actions != [] {
      var a := actions[0];
      StepInv(c, s, a);
      CrashedUnfair(c, s, a);
      if a.Send? { SendAccounted(c, s, a); } else { OtherAccounted(c, s, a); }
      RunAccounted(c, Next(c, s, a), actions[1..]);
    }
  }

  /**
    Whenever a pass without panicked or unlockable sends and with fair answers returns a
    counter, its record counts add up to the transactions taken into the batches it sent, its
    bytes do not exceed the bytes read, and every batch kept the size limit.
  */
  lemma PassAccounting(c: Config, actions: seq<Action>)
    requires Runs(c, Initial(), actions)
    ensures var s := After(c, Initial(), actions);
            s.fair && s.main.Returned? && (s.main.state.SyncedOrRemoved? || s.main.state.NotAvailable?) ==>
              && Records(s.main.state.counter) == TakenCount(ThisPass(s))
              && Bytes(s.main.state.counter) <= ReadBytes(ThisPass(s))
              && forall i :: 0 <= i < |ThisPass(s)| ==> Bounded(ThisPass(s)[i].p.batch, c.maxSize)
  {
    hide Runs, After, Bounded, Records, Bytes, TakenCount, ReadBytes;
    InitialInv(c);
    InitialAccounted();
    RunAccounted(c, Initial(), actions);
    var s := After(c, Initial(), actions);
    NoCounter(s.counter);
  }

  lemma InitialAccounted()
    ensures Accounted(Initial())
  {
    NoCounter([]);
    EmptyBalance();
  }
}
