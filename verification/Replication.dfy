/**
  Batches of the replication sender: reading transactions into a batch, and accounting for
  the answer of the remote bucket.
*/
module Replication {
  import opened Common

  datatype Txn = WriteRecord(ts: nat) | UpdateRecord(ts: nat)

  /** What reading a record from local storage gives. */
  datatype ReadResult = Record(size: nat) | ReadFailed(code: int)

  datatype Outcome = Success | Failure(code: int)

  /** One accounting entry: the outcome, the records it covers, the bytes replicated. */
  datatype Count = Count(outcome: Outcome, records: nat, bytes: nat)

  datatype Sent = Sent(txn: Txn, size: nat)

  /** One entry's batch. `taken` are the transactions it was made from, in log order. */
  datatype Prepared = Prepared(entry: string, taken: seq<Txn>, batch: seq<Sent>, sizes: map<nat, nat>, counter: seq<Count>)

  /** The remote bucket's answer to a batch; `errors` lists the failed timestamps in order. */
  datatype WriteResult = Written(errors: seq<(nat, int)>) | Rejected(code: int)

  /** `popped` is how many transactions the log lets go, less than asked only when popping fails. */
  datatype Reply = Panic | LockFailed | Answer(result: WriteResult, active: bool, popped: nat)

  // ----- preparing a batch -----

  function Empty(entry: string): Prepared {
    Prepared(entry, [], [], map[], [])
  }

  function Take(p: Prepared, txn: Txn, read: ReadResult): Prepared {
    match read
    case Record(size) =>
      Prepared(p.entry, p.taken + [txn], p.batch + [Sent(txn, size)], p.sizes[txn.ts := size], p.counter)
    case ReadFailed(code) =>
      Prepared(p.entry, p.taken + [txn], p.batch, p.sizes, p.counter + [Count(Failure(code), 1, 0)])
  }

  function BatchBytes(batch: seq<Sent>): nat {
    if batch == [] then 0 else BatchBytes(batch[..|batch| - 1]) + batch[|batch| - 1].size
  }

  /** The rest of the preparation loop. */
  function Fill(p: Prepared, txns: seq<Txn>, results: seq<ReadResult>, maxSize: nat): Prepared
    requires |results| == |txns|
    decreases |txns|
  {
    if txns == [] then p
    else
      var next := Take(p, txns[0], results[0]);
      if results[0].Record? && BatchBytes(next.batch) >= maxSize then next
      else Fill(next, txns[1..], results[1..], maxSize)
  }

  method FillBatch(entry: string, txns: seq<Txn>, results: seq<ReadResult>, maxSize: nat) returns (p: Prepared)
    requires |results| == |txns|
    ensures p == Fill(Empty(entry), txns, results, maxSize)
  {
    p := Empty(entry);
    var totalSize := 0;
    assert txns[0..] == txns && results[0..] == results;
    for i := 0 to |txns|
      invariant Fill(Empty(entry), txns, results, maxSize) == Fill(p, txns[i..], results[i..], maxSize)
      invariant totalSize == BatchBytes(p.batch)
    {
      assert txns[i..][1..] == txns[i + 1..] && results[i..][1..] == results[i + 1..];
      p := Take(p, txns[i], results[i]);
      if results[i].Record? {
        assert p.batch[..|p.batch| - 1] + [p.batch[|p.batch| - 1]] == p.batch;
        totalSize := totalSize + results[i].size;
        if totalSize >= maxSize {
          return;
        }
      }
    }
  }

  /** The records among those taken that were read, in order. */
  function Readable(txns: seq<Txn>, results: seq<ReadResult>): seq<Sent>
    requires |results| == |txns|
  {
    if txns == [] then []
    else
      var front := Readable(txns[..|txns| - 1], results[..|txns| - 1]);
      var last := results[|txns| - 1];
      if last.Record? then front + [Sent(txns[|txns| - 1], last.size)] else front
  }

  /** The accounting of the reads that failed, in order. */
  function FailedReads(results: seq<ReadResult>): seq<Count> {
    if results == [] then []
    else
      var front, last := FailedReads(results[..|results| - 1]), results[|results| - 1];
      if last.ReadFailed? then front + [Count(Failure(last.code), 1, 0)] else front
  }

  /** Each transaction taken went into the batch if its read succeeded and into the counter otherwise. */
  ghost predicate SplitBy(p: Prepared, results: seq<ReadResult>) {
    |results| == |p.taken| && p.batch == Readable(p.taken, results) && p.counter == FailedReads(results)
  }

  /** The sizes of the records by time; of two records with the same time the later one counts. */
  function SizesOf(batch: seq<Sent>): map<nat, nat> {
    if batch == [] then map[] else SizesOf(batch[..|batch| - 1])[batch[|batch| - 1].txn.ts := batch[|batch| - 1].size]
  }

  ghost predicate Partition(p: Prepared) {
    (exists results :: SplitBy(p, results)) && p.sizes == SizesOf(p.batch)
  }

  /** A batch that goes on growing has not reached the size limit yet. */
  ghost predicate Bounded(batch: seq<Sent>, maxSize: nat) {
    |batch| >= 2 ==> BatchBytes(batch[..|batch| - 1]) < maxSize
  }

  ghost predicate Open(batch: seq<Sent>, maxSize: nat) {
    batch != [] ==> BatchBytes(batch) < maxSize
  }

  lemma TakeSplits(p: Prepared, txn: Txn, read: ReadResult, results: seq<ReadResult>)
    requires SplitBy(p, results)
    ensures SplitBy(Take(p, txn, read), results + [read])
  {
    var all := results + [read];
    assert all[..|results|] == results && (p.taken + [txn])[..|p.taken|] == p.taken;
  }

  lemma TakeSizes(p: Prepared, txn: Txn, read: ReadResult)
    requires p.sizes == SizesOf(p.batch)
    ensures Take(p, txn, read).sizes == SizesOf(Take(p, txn, read).batch)
  {
    if read.Record? {
      var batch := Take(p, txn, read).batch;
      assert batch[..|batch| - 1] == p.batch;
    }
  }

  lemma {:induction false} SizesWithin(batch: seq<Sent>)
    ensures SumSizes(SizesOf(batch)) <= BatchBytes(batch)
  {
    hide SumSizes;
    if batch == [] {
      NoSizes();
    } else {
      SizesWithin(batch[..|batch| - 1]);
      SumInsert(SizesOf(batch[..|batch| - 1]), batch[|batch| - 1].txn.ts, batch[|batch| - 1].size);
    }
  }

  lemma NoSizes()
    ensures SumSizes(map[]) == 0
  {
  }

  lemma TakeKeeps(p: Prepared, txn: Txn, read: ReadResult, maxSize: nat)
    requires Partition(p) && Open(p.batch, maxSize) && Bounded(p.batch, maxSize)
    ensures Partition(Take(p, txn, read)) && Bounded(Take(p, txn, read).batch, maxSize)
    ensures Take(p, txn, read).taken == p.taken + [txn]
  {
    hide SizesOf, SplitBy, BatchBytes;
    var results :| SplitBy(p, results);
    TakeSplits(p, txn, read, results);
    TakeSizes(p, txn, read);
    if read.Record? {
      var batch := Take(p, txn, read).batch;
      assert batch[..|batch| - 1] == p.batch;
    }
  }

  /** The whole loop: a prefix of the transactions is taken and split, within the size limit. */
  lemma {:induction false} FillKeeps(p: Prepared, txns: seq<Txn>, results: seq<ReadResult>, maxSize: nat)
    requires |results| == |txns| && Partition(p) && Open(p.batch, maxSize) && Bounded(p.batch, maxSize)
    ensures var r := Fill(p, txns, results, maxSize);
            && Partition(r) && Bounded(r.batch, maxSize) && r.entry == p.entry
            && p.taken <= r.taken <= p.taken + txns
            && (txns != [] ==> |p.taken| < |r.taken|)
    decreases |txns|
  {
    hide Partition, Bounded;
    if txns != [] {
      var next := Take(p, txns[0], results[0]);
      TakeKeeps(p, txns[0], results[0], maxSize);
      assert p.taken + txns == next.taken + txns[1..];
      if !(results[0].Record? && BatchBytes(next.batch) >= maxSize) {
        FillKeeps(next, txns[1..], results[1..], maxSize);
      }
    }
  }

  lemma {:induction false} SplitCounts(taken: seq<Txn>, results: seq<ReadResult>)
    requires |results| == |taken|
    ensures |taken| == |Readable(taken, results)| + |FailedReads(results)|
    ensures forall i :: 0 <= i < |FailedReads(results)| ==> FailedReads(results)[i].records == 1 && FailedReads(results)[i].bytes == 0
  {
    if taken != [] { SplitCounts(taken[..|taken| - 1], results[..|taken| - 1]); }
  }

  /** A transaction taken was either unreadable or is in the batch. */
  lemma {:induction false} TakenIsSentOrFailed(taken: seq<Txn>, results: seq<ReadResult>, k: nat)
    requires |results| == |taken| && k < |taken|
    ensures results[k].ReadFailed? || Sent(taken[k], results[k].size) in Readable(taken, results)
  {
    if k < |taken| - 1 { TakenIsSentOrFailed(taken[..|taken| - 1], results[..|taken| - 1], k); }
  }

  // ----- sums over the batch sizes -----

  /** The sum of the values of a map. */
  ghost function SumSizes(m: map<nat, nat>): nat
    decreases |m|
  {
    if m == map[] then 0
    else
      var k :| k in m;
      m[k] + SumSizes(m - {k})
  }

  /** The sum does not depend on the order in which keys are taken. */
  lemma {:induction false} SumWithout(m: map<nat, nat>, k: nat)
    requires k in m
    ensures SumSizes(m) == m[k] + SumSizes(m - {k})
    decreases |m|
  {
    var j :| j in m && SumSizes(m) == m[j] + SumSizes(m - {j});
    if j != k {
      SumWithout(m - {j}, k);
      SumWithout(m - {k}, j);
      assert m - {j} - {k} == m - {k} - {j};
    }
  }

  lemma SumInsert(m: map<nat, nat>, k: nat, v: nat)
    ensures SumSizes(m[k := v]) <= SumSizes(m) + v
  {
    hide SumSizes;
    SumWithout(m[k := v], k);
    if k in m {
      SumWithout(m, k);
      assert m[k := v] - {k} == m - {k};
    } else {
      assert m[k := v] - {k} == m;
    }
  }

  lemma {:induction false} SumRestrict(m: map<nat, nat>, bad: set<nat>)
    ensures SumSizes(m - bad) <= SumSizes(m)
    decreases |m|
  {
    hide SumSizes;
    if k :| k in m && k in bad {
      SumWithout(m, k);
      SumRestrict(m - {k}, bad);
      assert m - {k} - bad == m - bad;
    } else {
      assert m - bad == m;
    }
  }

  // ----- accounting for an answer -----

  function FailedTimes(errors: seq<(nat, int)>): set<nat> {
    set i | 0 <= i < |errors| :: errors[i].0
  }

  function ErrorCounts(errors: seq<(nat, int)>): seq<Count> {
    seq(|errors|, i requires 0 <= i < |errors| => Count(Failure(errors[i].1), 1, 0))
  }

  /** Unsigned subtraction as the release build does it. */
  function SubU64(a: nat, b: nat): nat {
    (a - b) % U64_SIZE
  }

  /** The counter of a batch after the bucket's answer. */
  ghost function SendCounter(p: Prepared, result: WriteResult): seq<Count> {
    match result
    case Written(errors) =>
      p.counter
      + [Count(Success, SubU64(|p.batch|, |errors|), SumSizes(p.sizes - FailedTimes(errors)))]
      + ErrorCounts(errors)
    case Rejected(code) => p.counter + [Count(Failure(code), |p.batch|, 0)]
  }

  function Records(counter: seq<Count>): nat {
    if counter == [] then 0 else Records(counter[..|counter| - 1]) + counter[|counter| - 1].records
  }

  function Bytes(counter: seq<Count>): nat {
    if counter == [] then 0 else Bytes(counter[..|counter| - 1]) + counter[|counter| - 1].bytes
  }

  lemma {:induction false} CountsAppend(a: seq<Count>, b: seq<Count>)
    ensures Records(a + b) == Records(a) + Records(b) && Bytes(a + b) == Bytes(a) + Bytes(b)
    decreases |b|
  {
    if b == [] {
      assert a + b == a;
    } else {
      assert (a + b)[..|a + b| - 1] == a + b[..|b| - 1];
      CountsAppend(a, b[..|b| - 1]);
    }
  }

  lemma {:induction false} SinglesCount(c: seq<Count>)
    requires forall i :: 0 <= i < |c| ==> c[i].records == 1 && c[i].bytes == 0
    ensures Records(c) == |c| && Bytes(c) == 0
  {
    if c != [] { SinglesCount(c[..|c| - 1]); }
  }

  lemma OneCount(c: Count)
    ensures Records([c]) == c.records && Bytes([c]) == c.bytes
  {
    assert [c][..0] == [];
  }

  /** The answer does not report more failures than records sent. */
  predicate FairResult(p: Prepared, result: WriteResult) {
    |p.batch| < U64_SIZE && (result.Written? ==> |result.errors| <= |p.batch|)
  }

  /** A fair answer accounts for every transaction taken, and for no byte that was not read. */
  lemma AnswerAccounts(p: Prepared, result: WriteResult)
    requires Partition(p) && FairResult(p, result)
    ensures Records(SendCounter(p, result)) == |p.taken|
    ensures Bytes(SendCounter(p, result)) <= BatchBytes(p.batch)
  {
    hide SumSizes, SizesOf, Records, Bytes, BatchBytes, Readable, FailedReads;
    var results :| SplitBy(p, results);
    SplitCounts(p.taken, results);
    SinglesCount(p.counter);
    match result
    case Written(errors) =>
      var ok := Count(Success, SubU64(|p.batch|, |errors|), SumSizes(p.sizes - FailedTimes(errors)));
      CountsAppend(p.counter, [ok]);
      CountsAppend(p.counter + [ok], ErrorCounts(errors));
      OneCount(ok);
      SinglesCount(ErrorCounts(errors));
      SumRestrict(p.sizes, FailedTimes(errors));
      SizesWithin(p.batch);
    case Rejected(code) =>
      CountsAppend(p.counter, [Count(Failure(code), |p.batch|, 0)]);
      OneCount(Count(Failure(code), |p.batch|, 0));
  }

  /** An answer that reports more failures than records wraps around and breaks the accounting. */
  lemma UnfairAnswerMiscounts(p: Prepared, errors: seq<(nat, int)>)
    requires Partition(p) && |p.batch| < |errors| < U64_SIZE
    ensures Records(SendCounter(p, Written(errors))) > |p.taken|
  {
    hide SumSizes, SizesOf, Records, Bytes, BatchBytes, Readable, FailedReads;
    var results :| SplitBy(p, results);
    SplitCounts(p.taken, results);
    var ok := Count(Success, SubU64(|p.batch|, |errors|), SumSizes(p.sizes - FailedTimes(errors)));
    SinglesCount(p.counter);
    CountsAppend(p.counter, [ok]);
    CountsAppend(p.counter + [ok], ErrorCounts(errors));
    OneCount(ok);
    SinglesCount(ErrorCounts(errors));
  }

  /** The records add up exactly when the bucket reports no more failures than it was sent records. */
  lemma AccountingIff(p: Prepared, errors: seq<(nat, int)>)
    requires Partition(p) && |p.batch| < U64_SIZE && |errors| < U64_SIZE
    ensures Records(SendCounter(p, Written(errors))) == |p.taken| <==> |errors| <= |p.batch|
  {
    hide SendCounter, Records;
    if |errors| <= |p.batch| {
      AnswerAccounts(p, Written(errors));
    } else {
      UnfairAnswerMiscounts(p, errors);
    }
  }

  // ----- what the counts say -----

  /** The bucket reports the record at this time as failed. */
  ghost predicate Reported(errors: seq<(nat, int)>, ts: nat) {
    exists i :: 0 <= i < |errors| && errors[i].0 == ts
  }

  /** The bytes of the records not in `skip`, counting only the last record of each time. */
  function CountedBytes(batch: seq<Sent>, skip: set<nat>): nat {
    if batch == [] then 0
    else
      var last := batch[|batch| - 1];
      CountedBytes(batch[..|batch| - 1], skip + {last.txn.ts}) + (if last.txn.ts in skip then 0 else last.size)
  }

  lemma {:induction false} SumIsCounted(batch: seq<Sent>, skip: set<nat>)
    ensures SumSizes(SizesOf(batch) - skip) == CountedBytes(batch, skip)
  {
    hide SumSizes;
    if batch == [] {
      NoSizes();
      assert SizesOf(batch) - skip == map[];
    } else {
      var front, last := batch[..|batch| - 1], batch[|batch| - 1];
      var ts := last.txn.ts;
      var m := SizesOf(batch) - skip;
      SumIsCounted(front, skip + {ts});
      assert m - {ts} == SizesOf(front) - (skip + {ts});
      if ts in skip { assert m - {ts} == m; } else { SumWithout(m, ts); }
    }
  }

  /** While no two records have the same time, these are the bytes of all records not in `skip`. */
  lemma {:induction false} CountedOnce(batch: seq<Sent>, skip: set<nat>)
    requires forall i, j :: 0 <= i < j < |batch| ==> batch[i].txn.ts != batch[j].txn.ts
    ensures CountedBytes(batch, skip) == UnskippedBytes(batch, skip)
  {
    if batch != [] {
      var front, last := batch[..|batch| - 1], batch[|batch| - 1];
      CountedOnce(front, skip + {last.txn.ts});
      UnskippedElsewhere(front, skip, last.txn.ts);
    }
  }

  function UnskippedBytes(batch: seq<Sent>, skip: set<nat>): nat {
    if batch == [] then 0
    else UnskippedBytes(batch[..|batch| - 1], skip) + (if batch[|batch| - 1].txn.ts in skip then 0 else batch[|batch| - 1].size)
  }

  lemma {:induction false} UnskippedElsewhere(batch: seq<Sent>, skip: set<nat>, ts: nat)
    requires forall i :: 0 <= i < |batch| ==> batch[i].txn.ts != ts
    ensures UnskippedBytes(batch, skip + {ts}) == UnskippedBytes(batch, skip)
  {
    if batch != [] { UnskippedElsewhere(batch[..|batch| - 1], skip, ts); }
  }

  /**
    After an answer the counter lists the failed reads, then the success with the records that the
    bucket did not report as failed and their bytes, then one failure for each that it reported;
    a refusal counts every record of the batch as failed.
  */
  lemma AnswerCounts(p: Prepared, result: WriteResult, failed: set<nat>)
    requires Partition(p) && FairResult(p, result)
    requires result.Written? ==> forall ts :: ts in failed <==> Reported(result.errors, ts)
    ensures var c, n := SendCounter(p, result), |p.counter|;
            && |c| == n + 1 + (if result.Written? then |result.errors| else 0) && c[..n] == p.counter
            && (result.Rejected? ==> c[n] == Count(Failure(result.code), |p.batch|, 0))
            && (result.Written? ==>
                  && c[n] == Count(Success, |p.batch| - |result.errors|, CountedBytes(p.batch, failed))
                  && forall i :: 0 <= i < |result.errors| ==> c[n + 1 + i] == Count(Failure(result.errors[i].1), 1, 0))
  {
    hide SumSizes, SizesOf, CountedBytes, SplitBy;
    if result.Written? {
      assert FailedTimes(result.errors) == failed by {
        forall ts
          ensures ts in FailedTimes(result.errors) <==> ts in failed
        {
          assert ts in failed <==> Reported(result.errors, ts);
        }
      }
      SumIsCounted(p.batch, failed);
    }
  }

  // ----- how much a batch takes -----

  /** The bytes of the records read. */
  function SizeRead(results: seq<ReadResult>): nat {
    if results == [] then 0
    else SizeRead(results[..|results| - 1]) + (if results[|results| - 1].Record? then results[|results| - 1].size else 0)
  }

  /** The last of the first `n` reads made the batch reach the size limit. */
  predicate FullAt(results: seq<ReadResult>, maxSize: nat, n: nat)
    requires n <= |results|
  {
    0 < n && results[n - 1].Record? && maxSize <= SizeRead(results[..n])
  }

  /** The batch after `n` transactions: each of them is in it or among the failures. */
  ghost predicate FilledTo(p: Prepared, entry: string, txns: seq<Txn>, results: seq<ReadResult>, n: nat)
    requires |results| == |txns| && n <= |txns|
  {
    && p.entry == entry && p.taken == txns[..n] && p.sizes == SizesOf(p.batch)
    && p.batch == Readable(txns[..n], results[..n]) && p.counter == FailedReads(results[..n])
  }

  lemma {:induction false} ReadableBytes(txns: seq<Txn>, results: seq<ReadResult>)
    requires |results| == |txns|
    ensures BatchBytes(Readable(txns, results)) == SizeRead(results)
  {
    if txns != [] {
      var n := |txns| - 1;
      ReadableBytes(txns[..n], results[..n]);
      var front := Readable(txns[..n], results[..n]);
      if results[n].Record? { assert (front + [Sent(txns[n], results[n].size)])[..|front|] == front; }
    }
  }

  lemma FilledNext(p: Prepared, entry: string, txns: seq<Txn>, results: seq<ReadResult>, n: nat)
    requires |results| == |txns| && n < |txns| && FilledTo(p, entry, txns, results, n)
    ensures FilledTo(Take(p, txns[n], results[n]), entry, txns, results, n + 1)
  {
    hide SizesOf, Readable, FailedReads;
    TakeSplits(p, txns[n], results[n], results[..n]);
    TakeSizes(p, txns[n], results[n]);
    assert txns[..n + 1] == txns[..n] + [txns[n]] && results[..n + 1] == results[..n] + [results[n]];
  }

  lemma {:induction false} FillFrom(p: Prepared, entry: string, txns: seq<Txn>, results: seq<ReadResult>, maxSize: nat, i: nat) returns (n: nat)
    requires |results| == |txns| && i <= |txns| && FilledTo(p, entry, txns, results, i)
    requires forall k :: 0 <= k <= i ==> !FullAt(results, maxSize, k)
    ensures n <= |txns| && FilledTo(Fill(p, txns[i..], results[i..], maxSize), entry, txns, results, n)
    ensures (n < |txns| ==> FullAt(results, maxSize, n)) && forall k :: 0 <= k < n ==> !FullAt(results, maxSize, k)
    decreases |txns| - i
  {
    hide FilledTo, BatchBytes, SizeRead, Take;
    if i == |txns| {
      n := i;
    } else {
      var next := Take(p, txns[i], results[i]);
      FilledNext(p, entry, txns, results, i);
      FilledBytes(next, entry, txns, results, i + 1);
      assert txns[i..][1..] == txns[i + 1..] && results[i..][1..] == results[i + 1..];
      if FullAt(results, maxSize, i + 1) {
        n := i + 1;
      } else {
        n := FillFrom(next, entry, txns, results, maxSize, i + 1);
      }
    }
  }

  lemma FilledBytes(p: Prepared, entry: string, txns: seq<Txn>, results: seq<ReadResult>, n: nat)
    requires |results| == |txns| && n <= |txns| && FilledTo(p, entry, txns, results, n)
    ensures BatchBytes(p.batch) == SizeRead(results[..n])
  {
    hide SizesOf, Readable, FailedReads;
    ReadableBytes(txns[..n], results[..n]);
  }

  /** A batch takes all transactions, or stops right behind the first with which it reaches the size limit. */
  lemma FillTakes(entry: string, txns: seq<Txn>, results: seq<ReadResult>, maxSize: nat) returns (n: nat)
    requires |results| == |txns|
    ensures n <= |txns| && FilledTo(Fill(Empty(entry), txns, results, maxSize), entry, txns, results, n)
    ensures (n < |txns| ==> FullAt(results, maxSize, n)) && forall k :: 0 <= k < n ==> !FullAt(results, maxSize, k)
  {
    hide Fill;
    assert txns[..0] == [] && results[..0] == [];
    n := FillFrom(Empty(entry), entry, txns, results, maxSize, 0);
    assert txns[0..] == txns && results[0..] == results;
  }
}
