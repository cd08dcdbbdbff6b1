/**
  The replication sender's code in its own form: `run`, `send_batch` and the accounting loop,
  with the send task free to run at any point between being spawned and being joined.
*/
module ReplicationSender {
  import opened Common
  import opened Replication
  import opened ReplicationPass

  /** The bytes of the records that the bucket did not report as failed. */
  method WrittenSize(sizes: map<nat, nat>, failed: set<nat>) returns (written: nat)
    ensures written == SumSizes(sizes - failed)
  {
    hide SumSizes;
    var left := sizes - failed;
    written := 0;
    while left != map[]
      invariant written + SumSizes(left) == SumSizes(sizes - failed)
      decreases |left|
    {
      assert left.Keys != {};
      var t :| t in left;
      SumWithout(left, t);
      written := written + left[t];
      left := left - {t};
    }
    NoSizes();
  }

  /** The accounting of `send_batch`. */
  method Account(p: Prepared, result: WriteResult) returns (counter: seq<Count>)
    ensures counter == SendCounter(p, result)
  {
    hide SumSizes;
    match result
    case Written(errors) =>
      var written := WrittenSize(p.sizes, FailedTimes(errors));
      counter := p.counter + [Count(Success, SubU64(|p.batch|, |errors|), written)];
      ghost var base := counter;
      for i := 0 to |errors|
        invariant counter == base + ErrorCounts(errors)[..i]
      {
        counter := counter + [Count(Failure(errors[i].1), 1, 0)];
      }
      assert ErrorCounts(errors)[..|errors|] == ErrorCounts(errors);
    case Rejected(code) =>
      counter := p.counter + [Count(Failure(code), |p.batch|, 0)];
  }

  class Sender {
    var logs: map<string, seq<Txn>>
    var calls: seq<Call>

    /** `prepare_batch`: it changes nothing. */
    method PrepareBatch(c: Config, w: World, e: string) returns (r: Preparation)
      ensures r == PrepareIn(c, w, logs, e)
    {
      hide Fill;
      if e !in logs { return Nothing; }
      var front := w.front(e);
      if front.LockError? { return Internal; }
      if front.Unreadable? { return Broken; }
      var txns := FrontOf(logs[e], c.maxRecords);
      if txns == [] { return Nothing; }
      var results := seq(|txns|, i requires 0 <= i < |txns| => w.read(e, txns[i]));
      assert results == ReadAll(w, e, txns);
      var p := FillBatch(e, txns, results, c.maxSize);
      r := Batch(p);
    }

    /** `send_batch`: the batch leaves the log only when the bucket is active afterwards. */
    method SendBatch(w: World, p: Prepared) returns (task: Task)
      modifies this
      ensures Settlement(logs, calls, task) == SendWhole(w, old(logs), old(calls), p)
    {
      hide SendCounter;
      var reply := w.reply(calls + [Call(p.entry, p.batch)]);
      match reply
      case Panic =>
        calls := calls + [Call(p.entry, p.batch)];
        task := Crashed;
      case LockFailed =>
        task := Done(p.counter, false);
      case Answer(result, active, popped) =>
        calls := calls + [Call(p.entry, p.batch)];
        var counter := Account(p, result);
        if active {
          logs := logs[p.entry := DropFront(LogOf(logs, p.entry), Removed(p, reply))];
        }
        task := Done(counter, active);
    }

    /** The spawned task runs, if it has not run yet. */
    method RunTask(w: World, task: Task) returns (r: Task)
      requires !task.Popping?
      modifies this
      ensures !r.Spawned? && !r.Popping?
      ensures Settlement(logs, calls, r) == Settle(w, Snapshot(old(logs), old(calls), [], 0, task, []))
    {
      hide SendCounter;
      if task.Spawned? {
        r := SendBatch(w, task.p);
      } else {
        r := task;
      }
    }

    /**
      `run`: prepares one entry while the previous batch is being sent. The nondeterministic
      choices let the send task run before, during or after the preparation; the outcome is
      that of the sequential pass every time.
    */
    method Run(c: Config, w: World, entries: seq<string>) returns (state: SyncState)
      requires Unique(entries)
      modifies this
      ensures PassResult(logs, state, calls) == Sequential(c, w, old(logs), entries, 0, [], old(calls))
    {
      hide Sequential, Settle, PrepareIn;
      var counter: seq<Count> := [];
      var task := Idle;
      ghost var goal := Sequential(c, w, logs, entries, 0, [], calls);
      StartsAtGoal(c, w, logs, calls, entries);
      for i := 0 to |entries|
        invariant !task.Popping?
        invariant task.Spawned? ==> task.p.entry in entries[..i]
        invariant Completion(c, w, Snapshot(logs, calls, entries, i, task, counter)) == goal
      {
        assert entries[i] !in entries[..i];
        if * {
          ghost var s := Snapshot(logs, calls, entries, i, task, counter);
          task := RunTask(w, task);
          RanTask(c, w, s, Snapshot(logs, calls, entries, i, task, counter));
        }
        var result := PrepareBatch(c, w, entries[i]);
        ghost var s := Snapshot(logs, calls, entries, i, task, counter);
        task := RunTask(w, task);
        RanTask(c, w, s, Snapshot(logs, calls, entries, i, task, counter));
        SendElsewhere(c, w, s, logs, calls, task, entries[i]);
        assert result == PrepareIn(c, w, logs, entries[i]);
        s := Snapshot(logs, calls, entries, i, task, counter);
        Joined(c, w, s, result);
        if task.Done? {
          counter := counter + task.counter;
          if !task.active {
            return MakeState(counter, false);
          }
        }
        match result
        case Batch(p) =>
          PrepareNames(c, w, logs, entries[i]);
          assert entries[..i + 1][i] == entries[i];
          task := Spawned(p);
        case Nothing =>
          task := Idle;
        case Broken =>
          return BrokenLog(entries[i]);
        case Internal =>
          return Failed;
      }
      ghost var s := Snapshot(logs, calls, entries, |entries|, task, counter);
      task := RunTask(w, task);
      RanTask(c, w, s, Snapshot(logs, calls, entries, |entries|, task, counter));
      Ended(c, w, Snapshot(logs, calls, entries, |entries|, task, counter));
      var active := true;
      if task.Done? {
        counter := counter + task.counter;
        active := task.active;
      }
      state := MakeState(counter, active);
    }
  }

  /** The state of a pass as the state machine sees it, without its history. */
  function Snapshot(logs: map<string, seq<Txn>>, calls: seq<Call>, entries: seq<string>, i: nat, task: Task, counter: seq<Count>): State {
    State(logs, entries, Preparing(i), task, counter, calls, map[], [], 0, true)
  }

  lemma StartsAtGoal(c: Config, w: World, logs: map<string, seq<Txn>>, calls: seq<Call>, entries: seq<string>)
    ensures Completion(c, w, Snapshot(logs, calls, entries, 0, Idle, [])) == Sequential(c, w, logs, entries, 0, [], calls)
  {
    hide Sequential;
    NoCounter([]);
  }

  /** Running the task earlier or later does not change where the pass ends. */
  lemma RanTask(c: Config, w: World, s: State, s': State)
    requires s.main.Preparing? && !s.task.Popping? && !s'.task.Spawned? && !s'.task.Popping?
    requires s' == s.(logs := s'.logs, calls := s'.calls, task := s'.task)
    requires Settlement(s'.logs, s'.calls, s'.task) == Settle(w, Snapshot(s.logs, s.calls, [], 0, s.task, []))
    ensures Completion(c, w, s') == Completion(c, w, s)
  {
    hide Sequential, SendWhole;
    assert Settle(w, s) == Settlement(s'.logs, s'.calls, s'.task);
    assert Settle(w, s') == Settle(w, s);
  }

  /** A send does not touch what is prepared for another entry. */
  lemma SendElsewhere(c: Config, w: World, s: State, logs: map<string, seq<Txn>>, calls: seq<Call>, task: Task, e: string)
    requires !s.task.Popping? && (s.task.Spawned? ==> s.task.p.entry != e)
    requires Settlement(logs, calls, task) == Settle(w, Snapshot(s.logs, s.calls, [], 0, s.task, []))
    ensures PrepareIn(c, w, logs, e) == PrepareIn(c, w, s.logs, e)
  {
    hide Fill, SendCounter;
    assert LogOf(logs, e) == LogOf(s.logs, e) && (e in logs <==> e in s.logs);
  }

  lemma PrepareNames(c: Config, w: World, logs: map<string, seq<Txn>>, e: string)
    ensures PrepareIn(c, w, logs, e).Batch? ==> PrepareIn(c, w, logs, e).p.entry == e
  {
    hide Fill, FromFront;
    PreparedFromFront(c, logs, e, w.front(e), ReadAll(w, e, FrontOf(LogOf(logs, e), c.maxRecords)));
  }

  /** What the loop does with the joined task and the prepared batch is one step of the sequential pass. */
  lemma Joined(c: Config, w: World, s: State, result: Preparation)
    requires s.main.Preparing? && s.main.i < |s.entries| && !s.task.Spawned? && !s.task.Popping?
    requires result == PrepareIn(c, w, s.logs, s.entries[s.main.i])
    ensures var counter := s.counter + TaskCounter(s.task);
            var done := Completion(c, w, s);
            if s.task.Done? && !s.task.active then done == PassResult(s.logs, MakeState(counter, false), s.calls)
            else match result
              case Batch(p) => done == Completion(c, w, Snapshot(s.logs, s.calls, s.entries, s.main.i + 1, Spawned(p), counter))
              case Nothing => done == Completion(c, w, Snapshot(s.logs, s.calls, s.entries, s.main.i + 1, Idle, counter))
              case Broken => done == PassResult(s.logs, BrokenLog(s.entries[s.main.i]), s.calls)
              case Internal => done == PassResult(s.logs, Failed, s.calls)
    ensures !s.task.Done? ==> s.counter + TaskCounter(s.task) == s.counter
  {
    hide PrepareIn, SendWhole;
    NoCounter(s.counter);
    NoCounter(s.counter + TaskCounter(s.task));
  }

  lemma Ended(c: Config, w: World, s: State)
    requires s.main.Preparing? && s.main.i == |s.entries| && !s.task.Spawned? && !s.task.Popping?
    ensures Completion(c, w, s) == PassResult(s.logs, MakeState(s.counter + TaskCounter(s.task), if s.task.Done? then s.task.active else true), s.calls)
    ensures !s.task.Done? ==> s.counter + TaskCounter(s.task) == s.counter
  {
    hide PrepareIn, SendWhole;
    NoCounter(s.counter);
  }
}
