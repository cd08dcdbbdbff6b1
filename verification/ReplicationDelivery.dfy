/**
  What a replication pass sends: which calls it makes, what it removes from the logs and what it
  reports, and that passes empty the logs.
*/
module ReplicationDelivery {
  import opened Common
  import opened Replication
  import opened ReplicationPass

  // ----- preparing an entry -----

  /**
    The transactions a pass takes from the front of a log are as many as the limit allows, or fewer
    by the one with which the batch reaches its size; their batch is what was read of them.
  */
  ghost predicate Takes(c: Config, w: World, e: string, log: seq<Txn>, p: Prepared, n: nat) {
    var front := log[..Min(c.maxRecords, |log|)];
    var results := ReadAll(w, e, front);
    && n <= |front| && FilledTo(p, e, front, results, n)
    && (n < |front| ==> FullAt(results, c.maxSize, n)) && forall k :: 0 <= k < n ==> !FullAt(results, c.maxSize, k)
  }

  /** The batch of an entry. */
  ghost function BatchOf(c: Config, w: World, e: string, log: seq<Txn>): Prepared {
    var front := FrontOf(log, c.maxRecords);
    Fill(Empty(e), front, ReadAll(w, e, front), c.maxSize)
  }

  lemma BatchTakes(c: Config, w: World, e: string, log: seq<Txn>) returns (n: nat)
    ensures Takes(c, w, e, log, BatchOf(c, w, e, log), n) && BatchOf(c, w, e, log).taken == log[..n]
    ensures n <= Min(c.maxRecords, |log|) && (0 < c.maxRecords && log != [] ==> 0 < n)
  {
    hide Fill;
    var front := FrontOf(log, c.maxRecords);
    n := FillTakes(e, front, ReadAll(w, e, front), c.maxSize);
    assert front[..n] == log[..n];
  }

  /**
    What comes of preparing an entry: nothing if it has no log, the trouble with its log if there is
    any, and otherwise its batch, unless there is nothing to take.
  */
  lemma PreparesIff(c: Config, w: World, logs: map<string, seq<Txn>>, e: string)
    ensures var r := PrepareIn(c, w, logs, e);
            && (r.Internal? <==> e in logs && w.front(e).LockError?)
            && (r.Broken? <==> e in logs && w.front(e).Unreadable?)
            && (r.Batch? <==> e in logs && w.front(e).Ready? && logs[e] != [] && 0 < c.maxRecords)
            && (r.Batch? ==> r.p == BatchOf(c, w, e, logs[e]) && r.p.taken != [])
  {
    hide Fill;
    if e in logs {
      var n := BatchTakes(c, w, e, logs[e]);
    }
  }

  // ----- a whole pass -----

  /** The call for an entry, if it has something to send. */
  ghost function CallFor(c: Config, w: World, logs: map<string, seq<Txn>>, e: string): seq<Call> {
    if LogOf(logs, e) == [] then [] else [Call(e, BatchOf(c, w, e, LogOf(logs, e)).batch)]
  }

  /** One call for each entry that has something to send, in order. */
  ghost function CallsFor(c: Config, w: World, logs: map<string, seq<Txn>>, entries: seq<string>): seq<Call> {
    if entries == [] then [] else CallFor(c, w, logs, entries[0]) + CallsFor(c, w, logs, entries[1..])
  }

  /** An answer of an active bucket, after which popping works. */
  predicate Accepts(c: Config, reply: Reply) {
    reply.Answer? && reply.active && c.maxRecords <= reply.popped
  }

  /** The answer to the `j`-th of the calls to come. */
  function AnswerTo(w: World, before: seq<Call>, calls: seq<Call>, j: nat): Reply
    requires j < |calls|
  {
    w.reply(before + calls[..j + 1])
  }

  /** Of the calls to come the first `k` are accepted, and a next one is answered by a bucket that is not active. */
  ghost predicate AcceptsFirst(c: Config, w: World, before: seq<Call>, calls: seq<Call>, k: nat) {
    && k <= |calls|
    && (forall j :: 0 <= j < k ==> Accepts(c, AnswerTo(w, before, calls, j)))
    && (k < |calls| ==> AnswerTo(w, before, calls, k).Answer? && !AnswerTo(w, before, calls, k).active)
  }

  /** The logs can be read and there is a log for every entry. */
  ghost predicate AllReadable(c: Config, w: World, logs: map<string, seq<Txn>>, entries: seq<string>) {
    0 < c.maxRecords && forall e :: e in entries ==> e in logs && w.front(e).Ready?
  }

  ghost predicate CalledFirst(calls: seq<Call>, k: nat, e: string) {
    exists j :: 0 <= j < k && j < |calls| && calls[j].entry == e
  }

  /** What is left of a log after its batch. */
  ghost function Rest(c: Config, w: World, e: string, log: seq<Txn>): seq<Txn> {
    DropFront(log, |BatchOf(c, w, e, log).taken|)
  }

  lemma {:induction false} CallsElsewhere(c: Config, w: World, logs: map<string, seq<Txn>>, logs': map<string, seq<Txn>>, entries: seq<string>)
    requires forall e :: e in entries ==> LogOf(logs', e) == LogOf(logs, e)
    ensures CallsFor(c, w, logs', entries) == CallsFor(c, w, logs, entries)
  {
    hide BatchOf;
    if entries != [] {
      assert LogOf(logs', entries[0]) == LogOf(logs, entries[0]);
      CallsElsewhere(c, w, logs, logs', entries[1..]);
    }
  }

  lemma {:induction false} CallsOfEntries(c: Config, w: World, logs: map<string, seq<Txn>>, entries: seq<string>, j: nat)
    requires j < |CallsFor(c, w, logs, entries)|
    ensures CallsFor(c, w, logs, entries)[j].entry in entries
  {
    hide BatchOf;
    if LogOf(logs, entries[0]) == [] {
      CallsOfEntries(c, w, logs, entries[1..], j);
    } else if j > 0 {
      CallsOfEntries(c, w, logs, entries[1..], j - 1);
    }
  }

  /** What a pass comes to when `k` of its calls are accepted. */
  ghost predicate Outcome(c: Config, w: World, logs: map<string, seq<Txn>>, before: seq<Call>, calls: seq<Call>, k: nat, counted: bool, r: PassResult) {
    && r.calls == before + calls[..Min(k + 1, |calls|)]
    && r.logs.Keys == logs.Keys
    && (forall e :: LogOf(r.logs, e) == if CalledFirst(calls, k, e) then Rest(c, w, e, LogOf(logs, e)) else LogOf(logs, e))
    && (if k < |calls| then r.state.NotAvailable?
        else if counted || calls != [] then r.state.SyncedOrRemoved?
        else r.state.NoTransactions?)
  }

  /** Once a call is answered the log loses as much of what was sent as popping removes, and nothing if the bucket is not active. */
  lemma SentOff(c: Config, w: World, logs: map<string, seq<Txn>>, e: string, before: seq<Call>)
    requires e in logs && logs[e] != [] && 0 < c.maxRecords
    requires w.reply(before + [Call(e, BatchOf(c, w, e, logs[e]).batch)]).Answer?
    ensures |BatchOf(c, w, e, logs[e]).taken| <= |logs[e]|
    ensures var p := BatchOf(c, w, e, logs[e]);
            var calls := before + [Call(e, p.batch)];
            var sent := SendWhole(w, logs, before, p);
            && sent.calls == calls && sent.task.Done? && sent.task.counter != [] && sent.task.active == w.reply(calls).active
            && (!w.reply(calls).active ==> sent.logs == logs)
            && (w.reply(calls).active ==> sent.logs == logs[e := logs[e][Min(w.reply(calls).popped, |p.taken|)..]])
            && (Accepts(c, w.reply(calls)) ==> sent.logs == logs[e := Rest(c, w, e, logs[e])])
  {
    hide BatchOf, FilledTo;
    var p := BatchOf(c, w, e, logs[e]);
    var n := BatchTakes(c, w, e, logs[e]);
    EntryOf(c, w, e, logs[e]);
  }

  lemma EntryOf(c: Config, w: World, e: string, log: seq<Txn>)
    ensures BatchOf(c, w, e, log).entry == e
  {
    hide BatchOf;
    var n := BatchTakes(c, w, e, log);
  }

  lemma AcceptsNext(c: Config, w: World, before: seq<Call>, first: Call, rest: seq<Call>, k: nat)
    requires 0 < k && AcceptsFirst(c, w, before, [first] + rest, k)
    ensures AcceptsFirst(c, w, before + [first], rest, k - 1)
  {
    var calls := [first] + rest;
    forall j | 0 <= j < |rest|
      ensures AnswerTo(w, before + [first], rest, j) == AnswerTo(w, before, calls, j + 1)
    {
      assert (before + [first]) + rest[..j + 1] == before + calls[..j + 2];
    }
  }

  lemma FirstAnswer(w: World, before: seq<Call>, first: Call, rest: seq<Call>)
    ensures AnswerTo(w, before, [first] + rest, 0) == w.reply(before + [first])
  {
    assert ([first] + rest)[..1] == [first];
  }

  lemma CalledNext(first: Call, rest: seq<Call>, k: nat, e: string)
    requires 0 < k <= |rest| + 1
    ensures CalledFirst([first] + rest, k, e) <==> first.entry == e || CalledFirst(rest, k - 1, e)
  {
    var calls := [first] + rest;
    if first.entry == e { assert calls[0].entry == e; }
    if CalledFirst(rest, k - 1, e) {
      var j :| 0 <= j < k - 1 && j < |rest| && rest[j].entry == e;
      assert calls[j + 1].entry == e;
    }
  }

  lemma NotCalled(c: Config, w: World, logs: map<string, seq<Txn>>, entries: seq<string>, k: nat, e: string)
    requires e !in entries
    ensures !CalledFirst(CallsFor(c, w, logs, entries), k, e)
  {
    hide CallsFor;
    var calls := CallsFor(c, w, logs, entries);
    if CalledFirst(calls, k, e) {
      var j :| 0 <= j < k && j < |calls| && calls[j].entry == e;
      CallsOfEntries(c, w, logs, entries, j);
      assert false;
    }
  }

  lemma OutcomeNext(c: Config, w: World, logs: map<string, seq<Txn>>, logs': map<string, seq<Txn>>, before: seq<Call>,
                    first: Call, rest: seq<Call>, k: nat, counted: bool, r: PassResult)
    requires 0 < k <= |rest| + 1 && first.entry in logs && logs' == logs[first.entry := Rest(c, w, first.entry, logs[first.entry])]
    requires !CalledFirst(rest, k - 1, first.entry)
    requires Outcome(c, w, logs', before + [first], rest, k - 1, true, r)
    ensures Outcome(c, w, logs, before, [first] + rest, k, counted, r)
  {
    hide Rest, CalledFirst;
    var calls := [first] + rest;
    assert (before + [first]) + rest[..Min(k, |rest|)] == before + calls[..Min(k + 1, |calls|)];
    forall e
      ensures LogOf(r.logs, e) == if CalledFirst(calls, k, e) then Rest(c, w, e, LogOf(logs, e)) else LogOf(logs, e)
    {
      CalledNext(first, rest, k, e);
      assert LogOf(r.logs, e) == if CalledFirst(rest, k - 1, e) then Rest(c, w, e, LogOf(logs', e)) else LogOf(logs', e);
    }
  }

  lemma {:induction false} PassFrom(c: Config, w: World, logs: map<string, seq<Txn>>, entries: seq<string>, i: nat,
                                    counter: seq<Count>, before: seq<Call>, k: nat)
    requires i <= |entries| && Unique(entries) && AllReadable(c, w, logs, entries[i..])
    requires AcceptsFirst(c, w, before, CallsFor(c, w, logs, entries[i..]), k)
    ensures Outcome(c, w, logs, before, CallsFor(c, w, logs, entries[i..]), k, counter != [],
                    Sequential(c, w, logs, entries, i, counter, before))
    decreases |entries| - i
  {
    hide BatchOf, Rest, AcceptsFirst, Outcome, CallsFor, PrepareIn, SendWhole, Unique;
    if i == |entries| {
      PassEnds(c, w, logs, entries[i..], counter, before, k);
    } else {
      var e, later := entries[i], entries[i + 1..];
      assert entries[i..][0] == e && entries[i..][1..] == later;
      NotLater(entries, i);
      PreparesIff(c, w, logs, e);
      CallsNext(c, w, logs, entries[i..]);
      if logs[e] == [] {
        PassFrom(c, w, logs, entries, i + 1, counter, before, k);
      } else {
        var p, rest := BatchOf(c, w, e, logs[e]), CallsFor(c, w, logs, later);
        var first := Call(e, p.batch);
        FirstAnswer(w, before, first, rest);
        Answered(c, w, before, [first] + rest, k);
        SentOff(c, w, logs, e, before);
        if k == 0 {
          PassStops(c, w, logs, before, first, rest, counter, SendWhole(w, logs, before, p));
        } else {
          var logs' := logs[e := Rest(c, w, e, logs[e])];
          AcceptsNext(c, w, before, first, rest, k);
          CallsElsewhere(c, w, logs, logs', later);
          NotCalled(c, w, logs, later, k - 1, e);
          PassFrom(c, w, logs', entries, i + 1, counter + SendWhole(w, logs, before, p).task.counter, before + [first], k - 1);
          OutcomeNext(c, w, logs, logs', before, first, rest, k, counter != [],
                      Sequential(c, w, logs', entries, i + 1, counter + SendWhole(w, logs, before, p).task.counter, before + [first]));
        }
      }
    }
  }

  lemma NotLater(entries: seq<string>, i: nat)
    requires Unique(entries) && i < |entries|
    ensures entries[i] !in entries[i + 1..]
  {
  }

  lemma Answered(c: Config, w: World, before: seq<Call>, calls: seq<Call>, k: nat)
    requires AcceptsFirst(c, w, before, calls, k) && calls != []
    ensures AnswerTo(w, before, calls, 0).Answer?
    ensures if k == 0 then !AnswerTo(w, before, calls, 0).active else Accepts(c, AnswerTo(w, before, calls, 0))
  {
  }

  lemma CallsNext(c: Config, w: World, logs: map<string, seq<Txn>>, entries: seq<string>)
    requires entries != [] && entries[0] in logs
    ensures var rest := CallsFor(c, w, logs, entries[1..]);
            CallsFor(c, w, logs, entries) ==
            if logs[entries[0]] == [] then rest else [Call(entries[0], BatchOf(c, w, entries[0], logs[entries[0]]).batch)] + rest
  {
    hide BatchOf;
    assert [] + CallsFor(c, w, logs, entries[1..]) == CallsFor(c, w, logs, entries[1..]);
  }

  lemma PassEnds(c: Config, w: World, logs: map<string, seq<Txn>>, none: seq<string>, counter: seq<Count>, before: seq<Call>, k: nat)
    requires none == [] && AcceptsFirst(c, w, before, CallsFor(c, w, logs, none), k)
    ensures Outcome(c, w, logs, before, CallsFor(c, w, logs, none), k, counter != [], PassResult(logs, MakeState(counter, true), before))
  {
    hide Rest;
    assert before + [] == before;
  }

  lemma PassStops(c: Config, w: World, logs: map<string, seq<Txn>>, before: seq<Call>, first: Call, rest: seq<Call>,
                  counter: seq<Count>, sent: Settlement)
    requires sent.logs == logs && sent.calls == before + [first] && sent.task.Done? && sent.task.counter != []
    ensures Outcome(c, w, logs, before, [first] + rest, 0, counter != [],
                    PassResult(sent.logs, MakeState(counter + sent.task.counter, false), sent.calls))
  {
    hide Rest;
    assert ([first] + rest)[..1] == [first];
  }

  /**
    A pass over readable logs makes one call for each entry that has something to send, with its
    front, until the bucket is no longer active; the entries whose calls were accepted lose exactly
    what was sent, the other logs stay, and the state that is returned says which of this happened.
  */
  lemma PassDelivers(c: Config, w: World, logs: map<string, seq<Txn>>, entries: seq<string>, before: seq<Call>, k: nat)
    requires Unique(entries) && AllReadable(c, w, logs, entries) && AcceptsFirst(c, w, before, CallsFor(c, w, logs, entries), k)
    ensures Outcome(c, w, logs, before, CallsFor(c, w, logs, entries), k, false, Sequential(c, w, logs, entries, 0, [], before))
  {
    hide Outcome, AcceptsFirst, CallsFor, Sequential, Unique, AllReadable;
    assert entries[0..] == entries;
    PassFrom(c, w, logs, entries, 0, [], before, k);
  }

  // ----- passes empty the logs -----

  /** The bucket accepts whatever it is sent. */
  ghost predicate Healthy(c: Config, w: World) {
    forall calls :: Accepts(c, w.reply(calls))
  }

  /** The logs after a number of passes. */
  ghost function Passes(c: Config, w: World, logs: map<string, seq<Txn>>, entries: seq<string>, before: seq<Call>, n: nat): PassResult {
    if n == 0 then PassResult(logs, NoTransactions, before)
    else
      var r := Passes(c, w, logs, entries, before, n - 1);
      Sequential(c, w, r.logs, entries, 0, [], r.calls)
  }

  lemma {:induction false} CalledIff(c: Config, w: World, logs: map<string, seq<Txn>>, entries: seq<string>, e: string)
    requires e in entries && LogOf(logs, e) != []
    ensures CalledFirst(CallsFor(c, w, logs, entries), |CallsFor(c, w, logs, entries)|, e)
  {
    hide BatchOf;
    var calls, rest := CallsFor(c, w, logs, entries), CallsFor(c, w, logs, entries[1..]);
    if entries[0] == e {
      assert calls[0].entry == e;
    } else {
      CalledIff(c, w, logs, entries[1..], e);
      var j :| 0 <= j < |rest| && rest[j].entry == e;
      assert calls[|calls| - |rest| + j].entry == e;
    }
  }

  lemma PassShrinks(c: Config, w: World, logs: map<string, seq<Txn>>, entries: seq<string>, before: seq<Call>, e: string)
    requires Unique(entries) && AllReadable(c, w, logs, entries) && Healthy(c, w) && e in entries
    ensures var r := Sequential(c, w, logs, entries, 0, [], before);
            && r.logs.Keys == logs.Keys
            && (LogOf(r.logs, e) == [] || |LogOf(r.logs, e)| < |LogOf(logs, e)|)
  {
    hide Sequential, Unique, CallsFor, BatchOf, CalledFirst;
    var calls := CallsFor(c, w, logs, entries);
    PassDelivers(c, w, logs, entries, before, |calls|);
    if LogOf(logs, e) != [] {
      CalledIff(c, w, logs, entries, e);
      var n := BatchTakes(c, w, e, LogOf(logs, e));
    } else {
      assert forall n: nat :: DropFront([], n) == [];
    }
  }

  /** Every pass over readable logs with a healthy bucket shortens each log, so that in the end all of them are empty. */
  lemma {:induction false} PassesDrain(c: Config, w: World, logs: map<string, seq<Txn>>, entries: seq<string>, before: seq<Call>, n: nat, e: string)
    requires Unique(entries) && AllReadable(c, w, logs, entries) && Healthy(c, w) && e in entries
    ensures var r := Passes(c, w, logs, entries, before, n);
            r.logs.Keys == logs.Keys && (LogOf(r.logs, e) == [] || |LogOf(r.logs, e)| + n <= |LogOf(logs, e)|)
  {
    hide Sequential, Unique, Healthy;
    if n > 0 {
      PassesDrain(c, w, logs, entries, before, n - 1, e);
      var r := Passes(c, w, logs, entries, before, n - 1);
      PassShrinks(c, w, r.logs, entries, r.calls, e);
    }
  }

  // ----- trouble -----

  /** A send that panics has made its call and leaves the log; one that cannot lock the bucket makes no call and counts only the failed reads. */
  lemma SendTrouble(w: World, logs: map<string, seq<Txn>>, before: seq<Call>, p: Prepared)
    ensures var reply, sent := w.reply(before + [Call(p.entry, p.batch)]), SendWhole(w, logs, before, p);
            && (reply.Panic? ==> sent == Settlement(logs, before + [Call(p.entry, p.batch)], Crashed))
            && (reply.LockFailed? ==> sent == Settlement(logs, before, Done(p.counter, false)))
  {
  }

  /** An entry whose log cannot be read ends the pass. */
  ghost predicate Troubled(w: World, logs: map<string, seq<Txn>>, e: string) {
    e in logs && !w.front(e).Ready?
  }

  lemma {:induction false} TroubleFrom(c: Config, w: World, logs: map<string, seq<Txn>>, entries: seq<string>, i: nat, n: nat,
                                       counter: seq<Count>, before: seq<Call>)
    requires i <= n < |entries| && Unique(entries) && AllReadable(c, w, logs, entries[i..n]) && Troubled(w, logs, entries[n])
    requires AcceptsFirst(c, w, before, CallsFor(c, w, logs, entries[i..n]), |CallsFor(c, w, logs, entries[i..n])|)
    ensures var r := Sequential(c, w, logs, entries, i, counter, before);
            && r.calls == before + CallsFor(c, w, logs, entries[i..n])
            && r.state == (if w.front(entries[n]).Unreadable? then BrokenLog(entries[n]) else Failed)
    decreases n - i
  {
    hide BatchOf, Rest, AcceptsFirst, CallsFor, PrepareIn, SendWhole, Unique, AnswerTo, MakeState;
    PreparesIff(c, w, logs, entries[n]);
    if i == n {
      assert entries[i..n] == [];
      NoCalls(c, w, logs, entries[i..n]);
      assert before + [] == before;
    } else {
      var e, later := entries[i], entries[i + 1..n];
      assert entries[i..n][0] == e && entries[i..n][1..] == later;
      NotAgain(entries, i, n);
      PreparesIff(c, w, logs, e);
      CallsNext(c, w, logs, entries[i..n]);
      if logs[e] == [] {
        TroubleFrom(c, w, logs, entries, i + 1, n, counter, before);
      } else {
        var p, rest := BatchOf(c, w, e, logs[e]), CallsFor(c, w, logs, later);
        var first := Call(e, p.batch);
        FirstAnswer(w, before, first, rest);
        Answered(c, w, before, [first] + rest, |rest| + 1);
        SentOff(c, w, logs, e, before);
        var logs' := logs[e := Rest(c, w, e, logs[e])];
        AcceptsNext(c, w, before, first, rest, |rest| + 1);
        CallsElsewhere(c, w, logs, logs', later);
        TroubleFrom(c, w, logs', entries, i + 1, n, counter + SendWhole(w, logs, before, p).task.counter, before + [first]);
        assert (before + [first]) + rest == before + ([first] + rest);
      }
    }
  }

  lemma NoCalls(c: Config, w: World, logs: map<string, seq<Txn>>, none: seq<string>)
    requires none == []
    ensures CallsFor(c, w, logs, none) == []
  {
  }

  lemma NotAgain(entries: seq<string>, i: nat, n: nat)
    requires Unique(entries) && i < n < |entries|
    ensures entries[i] !in entries[i + 1..n] && entries[i] != entries[n]
  {
  }

  /** A pass sends what it has for the entries before the first whose log cannot be read, and then returns with that trouble. */
  lemma PassTrouble(c: Config, w: World, logs: map<string, seq<Txn>>, entries: seq<string>, n: nat, before: seq<Call>)
    requires n < |entries| && Unique(entries) && AllReadable(c, w, logs, entries[..n]) && Troubled(w, logs, entries[n])
    requires AcceptsFirst(c, w, before, CallsFor(c, w, logs, entries[..n]), |CallsFor(c, w, logs, entries[..n])|)
    ensures var r := Sequential(c, w, logs, entries, 0, [], before);
            && r.calls == before + CallsFor(c, w, logs, entries[..n])
            && r.state == (if w.front(entries[n]).Unreadable? then BrokenLog(entries[n]) else Failed)
  {
    hide Sequential, CallsFor, AcceptsFirst, Unique, AllReadable;
    assert entries[0..n] == entries[..n];
    TroubleFrom(c, w, logs, entries, 0, n, [], before);
  }
}
