/**
  A transaction log that overflows while a batch of its front is being sent: the pop that
  follows the send then takes transactions away that were never sent.
*/
module ReplicationOverflow {
  import opened Replication
  import opened ReplicationPass
  import opened TransactionLog

  /** How many of the oldest transactions a log of `capacity` slots has let go of after pushing `ts`. */
  function Overflow(q: seq<Txn>, ts: seq<Txn>, capacity: nat): nat {
    if |q| + |ts| < capacity then 0 else |q| + |ts| + 1 - capacity
  }

  /** Pushes keep the newest transactions of what the log held and what is pushed. */
  lemma {:induction false} PushesKeepNewest(q: seq<Txn>, ts: seq<Txn>, capacity: nat)
    requires |q| < capacity
    ensures Overflow(q, ts, capacity) <= |q + ts| && PushAll(q, ts, capacity) == (q + ts)[Overflow(q, ts, capacity)..]
    decreases |ts|
  {
    if ts == [] {
      assert q + ts == q;
    } else {
      var front, last := ts[..|ts| - 1], ts[|ts| - 1];
      PushesKeepNewest(q, front, capacity);
      assert q + ts == (q + front) + [last];
      var d := Overflow(q, front, capacity);
      assert ((q + front) + [last])[d..] == (q + front)[d..] + [last];
    }
  }

  /**
    The front of a log is being sent; meanwhile `ts` are pushed; then `n` transactions are popped.
    What the pop takes starts as many transactions further on as the pushes overflowed the log by.
    So the log is all that was appended without the `n` that were sent if and only if the pushes
    did not overflow it; otherwise as many transactions that were never sent are gone, too.
  */
  lemma PopAfterPushesIff(q: seq<Txn>, n: nat, ts: seq<Txn>, capacity: nat)
    requires |q| < capacity && n <= |q|
    ensures var d, pushed := Overflow(q, ts, capacity), PushAll(q, ts, capacity);
            && d + n <= |q + ts| && FrontOf(pushed, n) == (q + ts)[d..d + n]
            && q + ts == (q + ts)[..d + n] + DropFront(pushed, n)
            && (q + ts == q[..n] + DropFront(pushed, n) <==> |q| + |ts| < capacity)
  {
    hide PushAll;
    PushesKeepNewest(q, ts, capacity);
    var d, all := Overflow(q, ts, capacity), q + ts;
    var pushed := all[d..];
    assert n <= |pushed|;
    assert DropFront(pushed, n) == all[d + n..];
    assert FrontOf(pushed, n) == all[d..d + n];
    assert q[..n] == all[..n];
  }

  /** A push is the plain append of a replication pass if and only if there is room for it. */
  lemma PushIsAppendIff(c: Config, s: State, e: string, t: Txn, capacity: nat)
    requires 0 < capacity
    ensures Pushed(LogOf(s.logs, e), t, capacity).1 == LogOf(Next(c, s, Append(e, t)).logs, e) <==> |LogOf(s.logs, e)| + 1 < capacity
  {
    var q := LogOf(s.logs, e);
    assert |(q + [t])[1..]| == |q|;
  }
}
