/**
  The rate limiter: one fixed-window counter per scope, in a map that is pruned whenever it
  is used.
*/
module RateLimits {
  import opened Common

  datatype Scope = ClientIp(ip: string) | GlobalFallback

  datatype Kind = ApiRequests(amount: nat) | IngressBytes(amount: nat) | EgressBytes(amount: nat)

  /** At most `amount` per window; the window's length in whole seconds. */
  datatype WindowLimit = WindowLimit(amount: nat, window: nat)

  datatype Counter = Counter(limit: WindowLimit, used: nat, start: Option<nat>)

  datatype Decision = Accepted | Exceeded(limit: nat, used: nat, retryAfter: nat)

  function SaturatingAdd(a: nat, b: nat): nat {
    if a + b > U64_MAX then U64_MAX else a + b
  }

  function SaturatingSub(a: nat, b: nat): nat {
    if a >= b then a - b else 0
  }

  function WindowSecs(limit: WindowLimit): (w: nat)
    ensures 1 <= w
  {
    Max(limit.window, 1)
  }

  function NewCounter(limit: WindowLimit): Counter {
    Counter(limit, 0, None)
  }

  // ----- one counter -----

  /** The counter with its window opened or rolled over. */
  function Roll(c: Counter, now: nat): Counter {
    if c.start.Some? && SaturatingSub(now, c.start.value) < WindowSecs(c.limit) then c
    else if c.start.Some? then c.(used := 0, start := Some(now))
    else c.(start := Some(now))
  }

  /** `WindowCounter::consume` */
  function Consume(c: Counter, amount: nat, now: nat): (Counter, Decision) {
    var open := Roll(c, now);
    var after := SaturatingAdd(open.used, amount);
    if after > c.limit.amount then
      var elapsed := SaturatingSub(now, open.start.value);
      (open, Exceeded(c.limit.amount, after, Max(SaturatingSub(WindowSecs(c.limit), elapsed), 1)))
    else (open.(used := after), Accepted)
  }

  /** The window is open: it began less than its length ago, or the clock is behind its beginning. */
  predicate StillOpen(c: Counter, now: nat) {
    c.start.Some? && now < c.start.value + WindowSecs(c.limit)
  }

  /**
    A request is accepted if and only if it fits with what its window already used, which is nothing
    in a new window; if it is refused, nothing is used.
  */
  lemma ConsumeIff(c: Counter, amount: nat, now: nat)
    requires (c.start.None? ==> c.used == 0) && c.used <= U64_MAX
    ensures var used := if StillOpen(c, now) then c.used else 0;
            var (c', d) := Consume(c, amount, now);
            && (d.Accepted? <==> Min(used + amount, U64_MAX) <= c.limit.amount)
            && c'.limit == c.limit && c'.start == Some(if StillOpen(c, now) then c.start.value else now)
            && c'.used == (if d.Accepted? then Min(used + amount, U64_MAX) else used)
            && (d.Exceeded? ==> d.limit == c.limit.amount && d.used == Min(used + amount, U64_MAX))
  {
  }

  /**
    A client that waits for the time it is told and asks again for no more than the limit is
    accepted if and only if the clock was not behind the beginning of the window; asking sooner is
    refused again.
  */
  lemma RetryIff(c: Counter, amount: nat, now: nat)
    requires (c.start.None? ==> c.used == 0) && c.used <= U64_MAX
    requires Consume(c, amount, now).1.Exceeded? && amount <= c.limit.amount <= U64_MAX
    ensures var (c', d) := Consume(c, amount, now);
            && (Consume(c', amount, now + d.retryAfter).1.Accepted? <==> c'.start.value <= now)
            && forall sooner: nat :: now <= sooner < now + d.retryAfter ==> Consume(c', amount, sooner).1.Exceeded?
  {
  }

  // ----- the map of counters -----

  type Counters = map<Scope, Counter>

  predicate Live(c: Counter, now: nat, limit: WindowLimit) {
    c.start.Some? && SaturatingSub(now, c.start.value) <= Max(limit.window, 1)
  }

  function Prune(m: Counters, now: nat, limit: WindowLimit): Counters {
    map s | s in m && Live(m[s], now, limit) :: m[s]
  }

  function CounterOf(m: Counters, limit: WindowLimit, s: Scope): Counter {
    if s in m then m[s] else NewCounter(limit)
  }

  /** Using a scope's counter without pruning. */
  function ConsumeUnpruned(m: Counters, limit: WindowLimit, s: Scope, amount: nat, now: nat): (Counters, Decision) {
    var (c, d) := Consume(CounterOf(m, limit, s), amount, now);
    (m[s := c], d)
  }

  /** `consume_for_scope` */
  function ConsumeForScope(m: Counters, limit: WindowLimit, s: Scope, amount: nat, now: nat): (Counters, Decision) {
    ConsumeUnpruned(Prune(m, now, limit), limit, s, amount, now)
  }

  class RateLimiter {
    const apiLimit: Option<WindowLimit>
    const ingressLimit: Option<WindowLimit>
    const egressLimit: Option<WindowLimit>
    var api: Counters
    var ingress: Counters
    var egress: Counters

    constructor (apiLimit: Option<WindowLimit>, ingressLimit: Option<WindowLimit>, egressLimit: Option<WindowLimit>)
      ensures api == map[] && ingress == map[] && egress == map[]
      ensures this.apiLimit == apiLimit && this.ingressLimit == ingressLimit && this.egressLimit == egressLimit
    {
      this.apiLimit, this.ingressLimit, this.egressLimit := apiLimit, ingressLimit, egressLimit;
      api, ingress, egress := map[], map[], map[];
    }

    static method ConsumeIn(m: Counters, limit: Option<WindowLimit>, s: Scope, amount: nat, now: nat)
      returns (m': Counters, d: Decision)
      ensures limit.None? ==> m' == m && d == Accepted
      ensures limit.Some? ==> (m', d) == ConsumeForScope(m, limit.value, s, amount, now)
    {
      if limit.None? { return m, Accepted; }
      var live := map[];
      var left := m.Keys;
      while left != {}
        invariant left <= m.Keys
        invariant live == Prune(map k | k in m && k !in left :: m[k], now, limit.value)
        decreases left
      {
        var k :| k in left;
        if Live(m[k], now, limit.value) {
          live := live[k := m[k]];
        }
        left := left - {k};
      }
      assert (map k | k in m && k !in left :: m[k]) == m;
      var (c, decision) := Consume(CounterOf(live, limit.value, s), amount, now);
      return live[s := c], decision;
    }

    /** Each kind has its own limit and its own counters. */
    method ConsumeScoped(s: Scope, kind: Kind, now: nat) returns (d: Decision)
      modifies this
      ensures var limit := match kind case ApiRequests(_) => apiLimit case IngressBytes(_) => ingressLimit case EgressBytes(_) => egressLimit;
              var before := match kind case ApiRequests(_) => old(api) case IngressBytes(_) => old(ingress) case EgressBytes(_) => old(egress);
              var after := match kind case ApiRequests(_) => api case IngressBytes(_) => ingress case EgressBytes(_) => egress;
              (after, d) == if limit.None? then (before, Accepted) else ConsumeForScope(before, limit.value, s, kind.amount, now)
      ensures !kind.ApiRequests? ==> api == old(api)
      ensures !kind.IngressBytes? ==> ingress == old(ingress)
      ensures !kind.EgressBytes? ==> egress == old(egress)
    {
      match kind
      case ApiRequests(n) => api, d := ConsumeIn(api, apiLimit, s, n, now);
      case IngressBytes(n) => ingress, d := ConsumeIn(ingress, ingressLimit, s, n, now);
      case EgressBytes(n) => egress, d := ConsumeIn(egress, egressLimit, s, n, now);
    }
  }

  // ----- runs of requests -----

  datatype Request = Request(scope: Scope, amount: nat, now: nat)

  /** Time does not go backwards. */
  ghost predicate Forward(reqs: seq<Request>) {
    forall i, j :: 0 <= i < j < |reqs| ==> reqs[i].now <= reqs[j].now
  }

  ghost predicate NotBefore(reqs: seq<Request>, t: nat) {
    forall i :: 0 <= i < |reqs| ==> t <= reqs[i].now
  }

  function Pruned(m: Counters, limit: WindowLimit, reqs: seq<Request>): seq<Decision>
    decreases |reqs|
  {
    if reqs == [] then []
    else
      var (m', d) := ConsumeForScope(m, limit, reqs[0].scope, reqs[0].amount, reqs[0].now);
      [d] + Pruned(m', limit, reqs[1..])
  }

  function Unpruned(m: Counters, limit: WindowLimit, reqs: seq<Request>): seq<Decision>
    decreases |reqs|
  {
    if reqs == [] then []
    else
      var (m', d) := ConsumeUnpruned(m, limit, reqs[0].scope, reqs[0].amount, reqs[0].now);
      [d] + Unpruned(m', limit, reqs[1..])
  }

  // ----- when pruning is invisible -----

  /** A window that was opened at `ts[i]` and has expired by `ts[j]` is not met again at `ts[k]`. */
  ghost predicate NoReturn(ts: seq<nat>, w: nat) {
    forall i, j, k :: 0 <= i < j < k < |ts| && ts[i] + w < ts[j] ==> ts[i] + w <= ts[k]
  }

  ghost predicate AtTimes(reqs: seq<Request>, ts: seq<nat>) {
    |reqs| == |ts| && forall i :: 0 <= i < |reqs| ==> reqs[i].now == ts[i]
  }

  /** A counter of this limit; one that was never used has used nothing. */
  ghost predicate Proper(c: Counter, limit: WindowLimit) {
    c.limit == limit && (c.start.None? ==> c.used == 0)
  }

  /** The window of the counter was opened by one of the first `n` requests. */
  ghost predicate Opened(c: Counter, ts: seq<nat>, n: nat)
    requires n <= |ts|
  {
    c.start.Some? ==> exists i :: 0 <= i < n && ts[i] == c.start.value
  }

  /** A fresh counter, or one whose window no request from the `n`-th on meets: neither remembers anything. */
  ghost predicate Over(c: Counter, limit: WindowLimit, ts: seq<nat>, n: nat) {
    c == NewCounter(limit) || (c.start.Some? && forall k :: n <= k < |ts| ==> c.start.value + WindowSecs(limit) <= ts[k])
  }

  ghost predicate Alike(x: Counter, y: Counter, limit: WindowLimit, ts: seq<nat>, n: nat)
    requires n <= |ts|
  {
    && Proper(x, limit) && Proper(y, limit) && Opened(x, ts, n)
    && (x == y || (Over(x, limit, ts, n) && Over(y, limit, ts, n)))
  }

  /** Before the `n`-th request the two maps can differ only in counters that remember nothing. */
  ghost predicate SameMemory(a: Counters, b: Counters, limit: WindowLimit, ts: seq<nat>, n: nat)
    requires n <= |ts|
  {
    forall s :: Alike(CounterOf(a, limit, s), CounterOf(b, limit, s), limit, ts, n)
  }

  lemma ExpiredIsOver(c: Counter, limit: WindowLimit, ts: seq<nat>, n: nat)
    requires NoReturn(ts, WindowSecs(limit)) && n < |ts| && Opened(c, ts, n)
    requires c.start.Some? && c.start.value + WindowSecs(limit) < ts[n]
    ensures Over(c, limit, ts, n)
  {
    var i :| 0 <= i < n && ts[i] == c.start.value;
    forall k | n <= k < |ts|
      ensures c.start.value + WindowSecs(limit) <= ts[k]
    {
      if n < k { assert ts[i] + WindowSecs(limit) < ts[n]; }
    }
  }

  lemma PrunedAlike(m: Counters, limit: WindowLimit, ts: seq<nat>, n: nat, s: Scope, y: Counter)
    requires NoReturn(ts, WindowSecs(limit)) && n < |ts|
    requires Alike(CounterOf(m, limit, s), y, limit, ts, n)
    ensures Alike(CounterOf(Prune(m, ts[n], limit), limit, s), y, limit, ts, n)
  {
    hide NoReturn, Over;
    var x := CounterOf(m, limit, s);
    NewIsOver(limit, ts, n);
    if s in m && x.start.Some? && !Live(x, ts[n], limit) { ExpiredIsOver(x, limit, ts, n); }
  }

  lemma NewIsOver(limit: WindowLimit, ts: seq<nat>, n: nat)
    ensures Over(NewCounter(limit), limit, ts, n)
  {
  }

  /** Counters with the same memory react alike and are equal afterwards. */
  lemma SameReaction(x: Counter, y: Counter, limit: WindowLimit, ts: seq<nat>, n: nat, amount: nat)
    requires n < |ts| && Alike(x, y, limit, ts, n)
    ensures Consume(x, amount, ts[n]) == Consume(y, amount, ts[n])
    ensures Alike(Consume(x, amount, ts[n]).0, Consume(y, amount, ts[n]).0, limit, ts, n + 1)
  {
    var c := Consume(x, amount, ts[n]).0;
    assert c.start == Some(ts[n]) || c.start == x.start;
    assert ts[n] == ts[n];
  }

  lemma AlikeNext(x: Counter, y: Counter, limit: WindowLimit, ts: seq<nat>, n: nat)
    requires n < |ts| && Alike(x, y, limit, ts, n)
    ensures Alike(x, y, limit, ts, n + 1)
  {
    if x.start.Some? { var i :| 0 <= i < n && ts[i] == x.start.value; }
  }

  lemma SameMemoryKept(a: Counters, b: Counters, limit: WindowLimit, ts: seq<nat>, n: nat, r: Request)
    requires NoReturn(ts, WindowSecs(limit)) && n < |ts| && r.now == ts[n] && SameMemory(a, b, limit, ts, n)
    ensures ConsumeForScope(a, limit, r.scope, r.amount, r.now).1 == ConsumeUnpruned(b, limit, r.scope, r.amount, r.now).1
    ensures SameMemory(ConsumeForScope(a, limit, r.scope, r.amount, r.now).0, ConsumeUnpruned(b, limit, r.scope, r.amount, r.now).0, limit, ts, n + 1)
  {
    hide Consume, Prune, Alike, NoReturn;
    var p := Prune(a, r.now, limit);
    forall s
      ensures Alike(CounterOf(p, limit, s), CounterOf(b, limit, s), limit, ts, n)
    {
      assert Alike(CounterOf(a, limit, s), CounterOf(b, limit, s), limit, ts, n);
      PrunedAlike(a, limit, ts, n, s, CounterOf(b, limit, s));
    }
    SameReaction(CounterOf(p, limit, r.scope), CounterOf(b, limit, r.scope), limit, ts, n, r.amount);
    var a' := ConsumeForScope(a, limit, r.scope, r.amount, r.now).0;
    var b' := ConsumeUnpruned(b, limit, r.scope, r.amount, r.now).0;
    forall s
      ensures Alike(CounterOf(a', limit, s), CounterOf(b', limit, s), limit, ts, n + 1)
    {
      if s != r.scope {
        AlikeNext(CounterOf(p, limit, s), CounterOf(b, limit, s), limit, ts, n);
      }
    }
  }

  lemma {:induction false} PruningFrom(a: Counters, b: Counters, limit: WindowLimit, ts: seq<nat>, n: nat, reqs: seq<Request>)
    requires NoReturn(ts, WindowSecs(limit)) && n <= |ts| && AtTimes(reqs, ts[n..]) && SameMemory(a, b, limit, ts, n)
    ensures Pruned(a, limit, reqs) == Unpruned(b, limit, reqs)
    decreases |reqs|
  {
    hide ConsumeForScope, ConsumeUnpruned, SameMemory, NoReturn;
    if reqs != [] {
      assert reqs[0].now == ts[n];
      SameMemoryKept(a, b, limit, ts, n, reqs[0]);
      assert AtTimes(reqs[1..], ts[n + 1..]) by {
        assert ts[n..][1..] == ts[n + 1..];
      }
      PruningFrom(ConsumeForScope(a, limit, reqs[0].scope, reqs[0].amount, reqs[0].now).0,
                  ConsumeUnpruned(b, limit, reqs[0].scope, reqs[0].amount, reqs[0].now).0, limit, ts, n + 1, reqs[1..]);
    }
  }

  /** While no expired window is met again, pruning never changes a decision. */
  lemma PruningHarmless(limit: WindowLimit, reqs: seq<Request>, ts: seq<nat>)
    requires AtTimes(reqs, ts) && NoReturn(ts, WindowSecs(limit))
    ensures Pruned(map[], limit, reqs) == Unpruned(map[], limit, reqs)
  {
    hide Pruned, Unpruned, NoReturn;
    assert ts[0..] == ts;
    PruningFrom(map[], map[], limit, ts, 0, reqs);
  }

  function TimesOf(reqs: seq<Request>): (ts: seq<nat>)
    ensures |ts| == |reqs| && forall i :: 0 <= i < |reqs| ==> ts[i] == reqs[i].now
  {
    seq(|reqs|, i requires 0 <= i < |reqs| => reqs[i].now)
  }

  /** In particular not under a clock that does not go backwards. */
  lemma PruningInvisible(limit: WindowLimit, reqs: seq<Request>)
    requires Forward(reqs)
    ensures Pruned(map[], limit, reqs) == Unpruned(map[], limit, reqs)
  {
    hide Pruned, Unpruned;
    PruningHarmless(limit, reqs, TimesOf(reqs));
  }

  // ----- when pruning is visible -----

  /** The counters before the `n`-th request. */
  function PrunedAt(m: Counters, limit: WindowLimit, reqs: seq<Request>, n: nat): Counters
    requires n <= |reqs|
  {
    if n == 0 then m
    else
      var r := reqs[n - 1];
      ConsumeForScope(PrunedAt(m, limit, reqs, n - 1), limit, r.scope, r.amount, r.now).0
  }

  function UnprunedAt(m: Counters, limit: WindowLimit, reqs: seq<Request>, n: nat): Counters
    requires n <= |reqs|
  {
    if n == 0 then m
    else
      var r := reqs[n - 1];
      ConsumeUnpruned(UnprunedAt(m, limit, reqs, n - 1), limit, r.scope, r.amount, r.now).0
  }

  lemma {:induction false} FromNext(m: Counters, limit: WindowLimit, reqs: seq<Request>, n: nat)
    requires 0 < n <= |reqs|
    ensures PrunedAt(m, limit, reqs, n)
            == PrunedAt(ConsumeForScope(m, limit, reqs[0].scope, reqs[0].amount, reqs[0].now).0, limit, reqs[1..], n - 1)
    ensures UnprunedAt(m, limit, reqs, n)
            == UnprunedAt(ConsumeUnpruned(m, limit, reqs[0].scope, reqs[0].amount, reqs[0].now).0, limit, reqs[1..], n - 1)
    decreases n
  {
    hide ConsumeForScope, ConsumeUnpruned;
    if n > 1 {
      FromNext(m, limit, reqs, n - 1);
      assert reqs[1..][n - 2] == reqs[n - 1];
    }
  }

  /** The `n`-th decision is that of the counters before it. */
  lemma {:induction false} DecisionAt(m: Counters, limit: WindowLimit, reqs: seq<Request>, n: nat)
    requires n < |reqs|
    ensures |Pruned(m, limit, reqs)| == |Unpruned(m, limit, reqs)| == |reqs|
    ensures Pruned(m, limit, reqs)[n]
            == ConsumeForScope(PrunedAt(m, limit, reqs, n), limit, reqs[n].scope, reqs[n].amount, reqs[n].now).1
    ensures Unpruned(m, limit, reqs)[n]
            == ConsumeUnpruned(UnprunedAt(m, limit, reqs, n), limit, reqs[n].scope, reqs[n].amount, reqs[n].now).1
    decreases |reqs|
  {
    hide ConsumeForScope, ConsumeUnpruned;
    DecisionCount(m, limit, reqs);
    if n > 0 {
      var p := ConsumeForScope(m, limit, reqs[0].scope, reqs[0].amount, reqs[0].now).0;
      var u := ConsumeUnpruned(m, limit, reqs[0].scope, reqs[0].amount, reqs[0].now).0;
      FromNext(m, limit, reqs, n);
      DecisionAt(p, limit, reqs[1..], n - 1);
      DecisionAt(u, limit, reqs[1..], n - 1);
    }
  }

  /** The requests that show it: one client fills its window at `i` and asks again at `k`, another does the rest. */
  function Probe(ts: seq<nat>, limit: WindowLimit, i: nat, k: nat): (reqs: seq<Request>)
    ensures |reqs| == |ts|
  {
    seq(|ts|, n requires 0 <= n < |ts| =>
      if n == i then Request(GlobalFallback, limit.amount, ts[n])
      else if n == k then Request(GlobalFallback, 1, ts[n])
      else Request(ClientIp("other"), 0, ts[n]))
  }

  /** What is left of the first client's counter before the `n`-th request. */
  ghost predicate Remaining(ts: seq<nat>, limit: WindowLimit, i: nat, j: nat, k: nat, n: nat)
    requires i < j < k < |ts| && n <= k
  {
    var reqs := Probe(ts, limit, i, k);
    var p, u := PrunedAt(map[], limit, reqs, n), UnprunedAt(map[], limit, reqs, n);
    var full := Counter(limit, limit.amount, Some(ts[i]));
    && (n <= i ==> GlobalFallback !in p && GlobalFallback !in u)
    && (i < n ==> GlobalFallback in u && u[GlobalFallback] == full)
    && (i < n && GlobalFallback in p ==> p[GlobalFallback] == full && n <= j)
  }

  lemma RemainingNext(ts: seq<nat>, limit: WindowLimit, i: nat, j: nat, k: nat, n: nat)
    requires i < j < k < |ts| && n < k && limit.amount < U64_MAX && ts[i] + WindowSecs(limit) < ts[j]
    requires Remaining(ts, limit, i, j, k, n)
    ensures Remaining(ts, limit, i, j, k, n + 1)
  {
    var reqs := Probe(ts, limit, i, k);
    var p, u := PrunedAt(map[], limit, reqs, n), UnprunedAt(map[], limit, reqs, n);
    if n == i {
      FirstUse(p, limit, ts[i]);
      FirstUse(u, limit, ts[i]);
    } else {
      hide Consume;
    }
  }

  lemma FirstUse(m: Counters, limit: WindowLimit, now: nat)
    requires GlobalFallback !in m && limit.amount < U64_MAX
    ensures ConsumeUnpruned(m, limit, GlobalFallback, limit.amount, now)
            == (m[GlobalFallback := Counter(limit, limit.amount, Some(now))], Accepted)
    ensures ConsumeForScope(m, limit, GlobalFallback, limit.amount, now).0[GlobalFallback] == Counter(limit, limit.amount, Some(now))
  {
  }

  lemma {:induction false} RemainingAt(ts: seq<nat>, limit: WindowLimit, i: nat, j: nat, k: nat, n: nat)
    requires i < j < k < |ts| && n <= k && limit.amount < U64_MAX && ts[i] + WindowSecs(limit) < ts[j]
    ensures Remaining(ts, limit, i, j, k, n)
    decreases n
  {
    if n > 0 {
      hide Remaining;
      RemainingAt(ts, limit, i, j, k, n - 1);
      RemainingNext(ts, limit, i, j, k, n - 1);
    }
  }

  /** The client that comes back is accepted with pruning and refused without. */
  lemma ReturnIsSeen(ts: seq<nat>, limit: WindowLimit, i: nat, j: nat, k: nat)
    requires i < j < k < |ts| && 1 <= limit.amount < U64_MAX
    requires ts[i] + WindowSecs(limit) < ts[j] && ts[k] < ts[i] + WindowSecs(limit)
    ensures var reqs := Probe(ts, limit, i, k);
            && AtTimes(reqs, ts)
            && |Pruned(map[], limit, reqs)| == |Unpruned(map[], limit, reqs)| == |ts|
            && Pruned(map[], limit, reqs)[k].Accepted? && Unpruned(map[], limit, reqs)[k].Exceeded?
  {
    hide Pruned, Unpruned, PrunedAt, UnprunedAt;
    var reqs := Probe(ts, limit, i, k);
    RemainingAt(ts, limit, i, j, k, k);
    DecisionAt(map[], limit, reqs, k);
  }

  // ----- exactly when -----

  ghost predicate SameAccepts(ds: seq<Decision>, es: seq<Decision>) {
    |ds| == |es| && forall n :: 0 <= n < |ds| ==> (ds[n].Accepted? <==> es[n].Accepted?)
  }

  /** Whatever is asked for at these times, the same requests are accepted with and without pruning. */
  ghost predicate PruningUnseen(limit: WindowLimit, ts: seq<nat>) {
    forall reqs :: AtTimes(reqs, ts) ==> SameAccepts(Pruned(map[], limit, reqs), Unpruned(map[], limit, reqs))
  }

  /** A limit that accepts nothing, or everything: counters do not matter. */
  predicate TrivialLimit(limit: WindowLimit) {
    limit.amount == 0 || limit.amount >= U64_MAX
  }

  ghost predicate Unused(m: Counters, limit: WindowLimit) {
    forall s :: s in m ==> m[s].limit == limit && (limit.amount == 0 ==> m[s].used == 0)
  }

  lemma TrivialConsume(c: Counter, limit: WindowLimit, amount: nat, now: nat)
    requires TrivialLimit(limit) && c.limit == limit && (limit.amount == 0 ==> c.used == 0)
    ensures var (c', d) := Consume(c, amount, now);
            && c'.limit == limit && (limit.amount == 0 ==> c'.used == 0)
            && (d.Accepted? <==> limit.amount > 0 || amount == 0)
  {
  }

  lemma TrivialStep(m: Counters, limit: WindowLimit, r: Request)
    requires TrivialLimit(limit) && Unused(m, limit)
    ensures var (m', d) := ConsumeUnpruned(m, limit, r.scope, r.amount, r.now);
            Unused(m', limit) && (d.Accepted? <==> limit.amount > 0 || r.amount == 0)
    ensures Unused(Prune(m, r.now, limit), limit)
  {
    hide Consume;
    TrivialConsume(CounterOf(m, limit, r.scope), limit, r.amount, r.now);
  }

  lemma {:induction false} TrivialUnseen(a: Counters, b: Counters, limit: WindowLimit, reqs: seq<Request>)
    requires TrivialLimit(limit) && Unused(a, limit) && Unused(b, limit)
    ensures SameAccepts(Pruned(a, limit, reqs), Unpruned(b, limit, reqs))
    decreases |reqs|
  {
    hide ConsumeUnpruned, Unused, Prune;
    if reqs != [] {
      var r := reqs[0];
      TrivialStep(a, limit, r);
      TrivialStep(Prune(a, r.now, limit), limit, r);
      TrivialStep(b, limit, r);
      TrivialUnseen(ConsumeForScope(a, limit, r.scope, r.amount, r.now).0, ConsumeUnpruned(b, limit, r.scope, r.amount, r.now).0,
                    limit, reqs[1..]);
    }
  }

  /**
    For every list of clock readings: pruning changes no acceptance, whatever is asked for at these
    times, if and only if the limit is trivial or no window that has expired at one reading is met
    again at a later one. Under that condition on the clock no decision changes at all.
  */
  lemma PruningUnseenIff(limit: WindowLimit, ts: seq<nat>)
    ensures PruningUnseen(limit, ts) <==> TrivialLimit(limit) || NoReturn(ts, WindowSecs(limit))
    ensures NoReturn(ts, WindowSecs(limit)) ==>
              forall reqs :: AtTimes(reqs, ts) ==> Pruned(map[], limit, reqs) == Unpruned(map[], limit, reqs)
  {
    hide Pruned, Unpruned, AtTimes;
    if NoReturn(ts, WindowSecs(limit)) {
      forall reqs | AtTimes(reqs, ts)
        ensures Pruned(map[], limit, reqs) == Unpruned(map[], limit, reqs)
      {
        PruningHarmless(limit, reqs, ts);
      }
    } else if TrivialLimit(limit) {
      forall reqs | AtTimes(reqs, ts)
        ensures SameAccepts(Pruned(map[], limit, reqs), Unpruned(map[], limit, reqs))
      {
        TrivialUnseen(map[], map[], limit, reqs);
      }
    } else {
      var i, j, k :| 0 <= i < j < k < |ts| && ts[i] + WindowSecs(limit) < ts[j] && ts[k] < ts[i] + WindowSecs(limit);
      ReturnIsSeen(ts, limit, i, j, k);
    }
  }

  // ----- scopes do not influence each other -----

  function Own(reqs: seq<Request>, s: Scope): seq<Request> {
    if reqs == [] then []
    else if reqs[0].scope == s then [reqs[0]] + Own(reqs[1..], s)
    else Own(reqs[1..], s)
  }

  function OwnDecisions(reqs: seq<Request>, ds: seq<Decision>, s: Scope): seq<Decision>
    requires |ds| == |reqs|
  {
    if reqs == [] then []
    else if reqs[0].scope == s then [ds[0]] + OwnDecisions(reqs[1..], ds[1..], s)
    else OwnDecisions(reqs[1..], ds[1..], s)
  }

  lemma {:induction false} DecisionCount(m: Counters, limit: WindowLimit, reqs: seq<Request>)
    ensures |Pruned(m, limit, reqs)| == |reqs| && |Unpruned(m, limit, reqs)| == |reqs|
    decreases |reqs|
  {
    if reqs != [] {
      DecisionCount(ConsumeForScope(m, limit, reqs[0].scope, reqs[0].amount, reqs[0].now).0, limit, reqs[1..]);
      DecisionCount(ConsumeUnpruned(m, limit, reqs[0].scope, reqs[0].amount, reqs[0].now).0, limit, reqs[1..]);
    }
  }

  lemma {:induction false} UnprunedOwn(m: Counters, n: Counters, limit: WindowLimit, reqs: seq<Request>, s: Scope)
    requires CounterOf(m, limit, s) == CounterOf(n, limit, s)
    requires |Unpruned(m, limit, reqs)| == |reqs|
    ensures OwnDecisions(reqs, Unpruned(m, limit, reqs), s) == Unpruned(n, limit, Own(reqs, s))
    decreases |reqs|
  {
    hide Consume;
    if reqs != [] {
      var r := reqs[0];
      var m' := ConsumeUnpruned(m, limit, r.scope, r.amount, r.now).0;
      var ds := Unpruned(m, limit, reqs);
      DecisionCount(m', limit, reqs[1..]);
      assert ds[1..] == Unpruned(m', limit, reqs[1..]);
      if r.scope == s {
        var n' := ConsumeUnpruned(n, limit, s, r.amount, r.now).0;
        UnprunedOwn(m', n', limit, reqs[1..], s);
        assert ([r] + Own(reqs[1..], s))[1..] == Own(reqs[1..], s);
      } else {
        UnprunedOwn(m', n, limit, reqs[1..], s);
      }
    }
  }

  lemma {:induction false} OwnForward(reqs: seq<Request>, s: Scope, t: nat)
    requires Forward(reqs) && NotBefore(reqs, t)
    ensures Forward(Own(reqs, s)) && NotBefore(Own(reqs, s), t)
  {
    if reqs != [] {
      assert NotBefore(reqs[1..], reqs[0].now);
      OwnForward(reqs[1..], s, reqs[0].now);
    }
  }

  /** What the limiter decides for a scope is what it would decide if nobody else existed. */
  lemma ScopesIndependent(limit: WindowLimit, reqs: seq<Request>, s: Scope)
    requires Forward(reqs)
    ensures |Pruned(map[], limit, reqs)| == |reqs|
    ensures OwnDecisions(reqs, Pruned(map[], limit, reqs), s) == Pruned(map[], limit, Own(reqs, s))
  {
    hide Pruned, Unpruned, Own, OwnDecisions;
    DecisionCount(map[], limit, reqs);
    PruningInvisible(limit, reqs);
    UnprunedOwn(map[], map[], limit, reqs, s);
    OwnForward(reqs, s, 0);
    PruningInvisible(limit, Own(reqs, s));
  }

  // ----- how much is admitted -----

  /** The counter of one scope after its requests. */
  function After(limit: WindowLimit, reqs: seq<Request>): (c: Counter)
    ensures c.limit == limit
  {
    if reqs == [] then NewCounter(limit)
    else Consume(After(limit, reqs[..|reqs| - 1]), reqs[|reqs| - 1].amount, reqs[|reqs| - 1].now).0
  }

  function LastDecision(limit: WindowLimit, reqs: seq<Request>): Decision
    requires reqs != []
  {
    Consume(After(limit, reqs[..|reqs| - 1]), reqs[|reqs| - 1].amount, reqs[|reqs| - 1].now).1
  }

  /** How much is admitted at times from `lo` up to, not including, `hi`. */
  function Admitted(limit: WindowLimit, reqs: seq<Request>, lo: int, hi: int): nat {
    if reqs == [] then 0
    else
      var last := reqs[|reqs| - 1];
      Admitted(limit, reqs[..|reqs| - 1], lo, hi)
      + (if lo <= last.now < hi && LastDecision(limit, reqs).Accepted? then last.amount else 0)
  }

  ghost predicate Covers(reqs: seq<Request>, lo: int, hi: int, lo1: int, hi1: int, lo2: int, hi2: int) {
    forall i :: 0 <= i < |reqs| && lo <= reqs[i].now < hi ==> lo1 <= reqs[i].now < hi1 || lo2 <= reqs[i].now < hi2
  }

  /** What is admitted in a span is at most what is admitted in two spans covering it. */
  lemma {:induction false} AdmittedCovered(limit: WindowLimit, reqs: seq<Request>, lo: int, hi: int,
                                           lo1: int, hi1: int, lo2: int, hi2: int)
    requires Covers(reqs, lo, hi, lo1, hi1, lo2, hi2)
    ensures Admitted(limit, reqs, lo, hi) <= Admitted(limit, reqs, lo1, hi1) + Admitted(limit, reqs, lo2, hi2)
  {
    hide LastDecision;
    if reqs != [] {
      AdmittedCovered(limit, reqs[..|reqs| - 1], lo, hi, lo1, hi1, lo2, hi2);
    }
  }

  lemma {:induction false} AdmittedNothing(limit: WindowLimit, reqs: seq<Request>, lo: int, hi: int)
    requires forall i :: 0 <= i < |reqs| ==> !(lo <= reqs[i].now < hi)
    ensures Admitted(limit, reqs, lo, hi) == 0
  {
    hide LastDecision;
    if reqs != [] { AdmittedNothing(limit, reqs[..|reqs| - 1], lo, hi); }
  }

  /** The open window: when it began, and that all requests so far came before its end. */
  ghost predicate InWindow(limit: WindowLimit, reqs: seq<Request>) {
    var c := After(limit, reqs);
    && c.start.Some?
    && c.start.value <= reqs[|reqs| - 1].now < c.start.value + WindowSecs(limit)
    && c.used <= limit.amount
  }

  lemma AfterStep(limit: WindowLimit, reqs: seq<Request>)
    requires reqs != []
    ensures var last := reqs[|reqs| - 1];
            var c := After(limit, reqs[..|reqs| - 1]);
            After(limit, reqs) == Consume(c, last.amount, last.now).0 && LastDecision(limit, reqs) == Consume(c, last.amount, last.now).1
  {
  }

  /** After every request the counter is inside a window and has used no more than the limit. */
  lemma {:induction false} AlwaysInWindow(limit: WindowLimit, reqs: seq<Request>)
    requires Forward(reqs) && reqs != []
    ensures InWindow(limit, reqs)
  {
    hide After;
    AfterStep(limit, reqs);
    var front, last := reqs[..|reqs| - 1], reqs[|reqs| - 1];
    if front != [] {
      AlwaysInWindow(limit, front);
      assert front[|front| - 1].now <= last.now;
    } else {
      NothingYet(limit, front);
    }
  }

  lemma NothingYet(limit: WindowLimit, reqs: seq<Request>)
    requires reqs == []
    ensures After(limit, reqs) == NewCounter(limit)
  {
  }

  /** A request either stays in the open window or begins one after it. */
  lemma WindowStep(limit: WindowLimit, reqs: seq<Request>)
    requires Forward(reqs) && |reqs| >= 2
    ensures var s0, s := After(limit, reqs[..|reqs| - 1]).start, After(limit, reqs).start;
            && s0.Some? && s.Some? && s0.value <= reqs[|reqs| - 2].now < s0.value + WindowSecs(limit)
            && (s == s0 || (s.value == reqs[|reqs| - 1].now && s0.value + WindowSecs(limit) <= s.value))
  {
    hide After;
    var front := reqs[..|reqs| - 1];
    AlwaysInWindow(limit, front);
    AfterStep(limit, reqs);
    assert front[|front| - 1] == reqs[|reqs| - 2] && reqs[|reqs| - 2].now <= reqs[|reqs| - 1].now;
  }

  lemma UsedStep(limit: WindowLimit, reqs: seq<Request>)
    requires Forward(reqs) && |reqs| >= 2 && limit.amount < U64_MAX
    ensures var front := reqs[..|reqs| - 1];
            var before := if After(limit, reqs).start == After(limit, front).start then After(limit, front).used else 0;
            After(limit, reqs).used == before + (if LastDecision(limit, reqs).Accepted? then reqs[|reqs| - 1].amount else 0)
  {
    hide After;
    var front := reqs[..|reqs| - 1];
    AlwaysInWindow(limit, front);
    AfterStep(limit, reqs);
    assert front[|front| - 1] == reqs[|reqs| - 2] && reqs[|reqs| - 2].now <= reqs[|reqs| - 1].now;
  }

  /** What the open window admitted is what the counter says. */
  lemma {:induction false} WindowAdmits(limit: WindowLimit, reqs: seq<Request>)
    requires Forward(reqs) && reqs != [] && limit.amount < U64_MAX
    ensures InWindow(limit, reqs)
    ensures var s := After(limit, reqs).start.value;
            Admitted(limit, reqs, s, s + WindowSecs(limit)) == After(limit, reqs).used <= limit.amount
  {
    hide After, LastDecision, Forward;
    AlwaysInWindow(limit, reqs);
    var front, last := reqs[..|reqs| - 1], reqs[|reqs| - 1];
    var s := After(limit, reqs).start.value;
    if front == [] {
      FirstRequest(limit, reqs);
    } else {
      ForwardFront(reqs);
      WindowAdmits(limit, front);
      WindowStep(limit, reqs);
      UsedStep(limit, reqs);
      if After(limit, front).start != Some(s) {
        FrontBefore(reqs);
        AdmittedNothing(limit, front, s, s + WindowSecs(limit));
      }
    }
  }

  lemma ForwardFront(reqs: seq<Request>)
    requires Forward(reqs) && reqs != []
    ensures Forward(reqs[..|reqs| - 1])
  {
  }

  lemma FrontBefore(reqs: seq<Request>)
    requires Forward(reqs) && |reqs| >= 2
    ensures var front := reqs[..|reqs| - 1];
            forall i :: 0 <= i < |front| ==> front[i].now <= reqs[|reqs| - 2].now
  {
  }

  lemma FirstRequest(limit: WindowLimit, reqs: seq<Request>)
    requires |reqs| == 1 && limit.amount < U64_MAX
    ensures After(limit, reqs).start == Some(reqs[0].now)
    ensures Admitted(limit, reqs, reqs[0].now, reqs[0].now + WindowSecs(limit)) == After(limit, reqs).used
  {
    assert reqs[..0] == [];
  }

  /** Before the open window, a span shorter than a window meets only one other window. */
  lemma {:induction false} EarlierWindow(limit: WindowLimit, reqs: seq<Request>, lo: int)
    requires Forward(reqs) && reqs != [] && limit.amount < U64_MAX
    requires After(limit, reqs).start.Some? && lo + WindowSecs(limit) >= After(limit, reqs).start.value
    ensures Admitted(limit, reqs, lo, After(limit, reqs).start.value) <= limit.amount
  {
    hide After, LastDecision, Forward;
    var front, last := reqs[..|reqs| - 1], reqs[|reqs| - 1];
    AlwaysInWindow(limit, reqs);
    var s := After(limit, reqs).start.value;
    if front == [] {
      AdmittedEmpty(limit, front, lo, s);
      FirstRequest(limit, reqs);
    } else {
      ForwardFront(reqs);
      WindowStep(limit, reqs);
      var s0 := After(limit, front).start.value;
      if s == s0 {
        EarlierWindow(limit, front, lo);
      } else {
        WindowAdmits(limit, front);
        FrontBefore(reqs);
        AdmittedCovered(limit, front, lo, s, s0, s0 + WindowSecs(limit), 0, 0);
        AdmittedNothing(limit, front, 0, 0);
      }
    }
  }

  lemma AdmittedEmpty(limit: WindowLimit, reqs: seq<Request>, lo: int, hi: int)
    requires reqs == []
    ensures Admitted(limit, reqs, lo, hi) == 0
  {
  }

  /**
    For every sequence of requests on one scope, any half-open span of one window length
    admits at most twice the limit, and what the open window admitted is within the limit.
  */
  lemma {:induction false} SpanBound(limit: WindowLimit, reqs: seq<Request>, lo: int)
    requires Forward(reqs) && limit.amount < U64_MAX
    ensures Admitted(limit, reqs, lo, lo + WindowSecs(limit)) <= 2 * limit.amount
  {
    hide After, LastDecision, Forward;
    if reqs != [] {
      var front, last := reqs[..|reqs| - 1], reqs[|reqs| - 1];
      WindowAdmits(limit, reqs);
      var s, w := After(limit, reqs).start.value, WindowSecs(limit);
      if lo + w <= s {
        ForwardFront(reqs);
        SpanBound(limit, front, lo);
      } else {
        EarlierWindow(limit, reqs, lo);
        BeforeEnd(limit, reqs);
        AdmittedCovered(limit, reqs, lo, lo + w, lo, s, s, s + w);
      }
    }
  }

  lemma BeforeEnd(limit: WindowLimit, reqs: seq<Request>)
    requires Forward(reqs) && reqs != []
    ensures After(limit, reqs).start.Some?
    ensures forall i :: 0 <= i < |reqs| ==> reqs[i].now < After(limit, reqs).start.value + WindowSecs(limit)
  {
    hide After;
    AlwaysInWindow(limit, reqs);
  }

  /** A limit of the largest number never rejects, because the use saturates there. */
  lemma LargestLimitAdmitsAll(window: nat, c: Counter, amount: nat, now: nat)
    requires c.limit == WindowLimit(U64_MAX, window)
    ensures Consume(c, amount, now).1.Accepted?
  {
  }

  /** How much is admitted in the window-long span that starts at `lo`. */
  function AdmittedInSpan(limit: WindowLimit, reqs: seq<Request>, lo: int): nat {
    Admitted(limit, reqs, lo, lo + WindowSecs(limit))
  }

  ghost predicate HoldsTwice(limit: WindowLimit) {
    forall reqs: seq<Request>, lo: int :: Forward(reqs) ==> AdmittedInSpan(limit, reqs, lo) <= 2 * limit.amount
  }

  /** The bound of twice the limit holds exactly for limits below the largest number. */
  lemma SpanBoundIff(limit: WindowLimit)
    requires limit.amount <= U64_MAX
    ensures HoldsTwice(limit) <==> limit.amount < U64_MAX
  {
    hide After, LastDecision, Forward;
    if limit.amount < U64_MAX {
      forall reqs: seq<Request>, lo: int | Forward(reqs)
        ensures AdmittedInSpan(limit, reqs, lo) <= 2 * limit.amount
      {
        SpanBound(limit, reqs, lo);
      }
    } else {
      var r := Request(GlobalFallback, U64_MAX, 0);
      ThreeLargest(limit, r);
    }
  }

  lemma ThreeLargest(limit: WindowLimit, r: Request)
    requires limit.amount == U64_MAX && r == Request(GlobalFallback, U64_MAX, 0)
    ensures Forward([r, r, r]) && AdmittedInSpan(limit, [r, r, r], 0) > 2 * limit.amount
  {
    hide After;
    LargestLimitAdmitsAll(limit.window, After(limit, []), r.amount, r.now);
    LargestLimitAdmitsAll(limit.window, After(limit, [r]), r.amount, r.now);
    LargestLimitAdmitsAll(limit.window, After(limit, [r, r]), r.amount, r.now);
    assert [r, r, r][..2] == [r, r] && [r, r][..1] == [r] && [r][..0] == [];
    assert Admitted(limit, [], 0, WindowSecs(limit)) == 0;
    assert Admitted(limit, [r], 0, WindowSecs(limit)) == U64_MAX;
    assert Admitted(limit, [r, r], 0, WindowSecs(limit)) == 2 * U64_MAX;
  }

  // ----- the bounds for the limiter itself -----

  /** The amounts that decisions accepted for scope `s` at times from `lo` up to, not including, `hi`. */
  function AcceptedFor(reqs: seq<Request>, ds: seq<Decision>, s: Scope, lo: int, hi: int): nat
    requires |ds| == |reqs|
  {
    if reqs == [] then 0
    else
      var n := |reqs| - 1;
      AcceptedFor(reqs[..n], ds[..n], s, lo, hi)
      + (if reqs[n].scope == s && lo <= reqs[n].now < hi && ds[n].Accepted? then reqs[n].amount else 0)
  }

  lemma {:induction false} OwnSnoc(reqs: seq<Request>, r: Request, s: Scope)
    ensures Own(reqs + [r], s) == Own(reqs, s) + (if r.scope == s then [r] else [])
    decreases |reqs|
  {
    if reqs == [] {
      assert reqs + [r] == [r] && [r][1..] == [];
    } else {
      assert (reqs + [r])[1..] == reqs[1..] + [r];
      OwnSnoc(reqs[1..], r, s);
    }
  }

  /** The map holds for every scope the counter that its own requests lead to. */
  ghost predicate Tracks(m: Counters, limit: WindowLimit, done: seq<Request>) {
    forall s :: CounterOf(m, limit, s) == After(limit, Own(done, s))
  }

  /** The decision on a request after the scope's earlier requests. */
  function DecisionFor(limit: WindowLimit, prior: seq<Request>, r: Request): Decision {
    Consume(After(limit, prior), r.amount, r.now).1
  }

  lemma AfterSnoc(limit: WindowLimit, prior: seq<Request>, r: Request)
    ensures After(limit, prior + [r]) == Consume(After(limit, prior), r.amount, r.now).0
    ensures LastDecision(limit, prior + [r]) == DecisionFor(limit, prior, r)
  {
    hide Consume;
    assert (prior + [r])[..|prior|] == prior;
  }

  /** What one decision adds to an accepted amount. */
  function Adds(r: Request, d: Decision, lo: int, hi: int): nat {
    if lo <= r.now < hi && d.Accepted? then r.amount else 0
  }

  lemma AdmittedSnoc(limit: WindowLimit, prior: seq<Request>, r: Request, lo: int, hi: int)
    ensures Admitted(limit, prior + [r], lo, hi) == Admitted(limit, prior, lo, hi) + Adds(r, DecisionFor(limit, prior, r), lo, hi)
  {
    hide Consume, DecisionFor, After, LastDecision;
    assert (prior + [r])[..|prior|] == prior;
    AfterSnoc(limit, prior, r);
  }

  lemma AcceptedSnoc(reqs: seq<Request>, ds: seq<Decision>, n: nat, s: Scope, lo: int, hi: int)
    requires 0 < n <= |reqs| == |ds|
    ensures AcceptedFor(reqs[..n], ds[..n], s, lo, hi) ==
            AcceptedFor(reqs[..n - 1], ds[..n - 1], s, lo, hi)
            + (if reqs[n - 1].scope == s then Adds(reqs[n - 1], ds[n - 1], lo, hi) else 0)
  {
    assert reqs[..n][..n - 1] == reqs[..n - 1] && ds[..n][..n - 1] == ds[..n - 1];
  }

  lemma OwnNext(reqs: seq<Request>, n: nat, s: Scope)
    requires 0 < n <= |reqs|
    ensures Own(reqs[..n], s) == Own(reqs[..n - 1], s) + (if reqs[n - 1].scope == s then [reqs[n - 1]] else [])
  {
    hide Own;
    assert reqs[..n] == reqs[..n - 1] + [reqs[n - 1]];
    OwnSnoc(reqs[..n - 1], reqs[n - 1], s);
  }

  lemma DecidedAt(limit: WindowLimit, reqs: seq<Request>, i: nat)
    requires i < |reqs| == |Unpruned(map[], limit, reqs)|
    ensures Unpruned(map[], limit, reqs)[i] == DecisionFor(limit, Own(reqs[..i], reqs[i].scope), reqs[i])
  {
    hide Unpruned, Own, DecisionFor, Tracks;
    NothingTracked(limit);
    UnprunedDecision(map[], limit, [], reqs, i);
    assert [] + reqs[..i] == reqs[..i];
  }

  lemma TracksStep(m: Counters, limit: WindowLimit, done: seq<Request>, r: Request)
    requires Tracks(m, limit, done)
    ensures Tracks(ConsumeUnpruned(m, limit, r.scope, r.amount, r.now).0, limit, done + [r])
    ensures ConsumeUnpruned(m, limit, r.scope, r.amount, r.now).1 == DecisionFor(limit, Own(done, r.scope), r)
  {
    hide Consume, Own, After;
    var m' := ConsumeUnpruned(m, limit, r.scope, r.amount, r.now).0;
    assert CounterOf(m, limit, r.scope) == After(limit, Own(done, r.scope));
    AfterSnoc(limit, Own(done, r.scope), r);
    forall s
      ensures CounterOf(m', limit, s) == After(limit, Own(done + [r], s))
    {
      OwnSnoc(done, r, s);
      assert Own(done, s) + [] == Own(done, s);
      if s != r.scope { assert CounterOf(m, limit, s) == After(limit, Own(done, s)); }
    }
  }

  lemma {:induction false} UnprunedDecision(m: Counters, limit: WindowLimit, done: seq<Request>, reqs: seq<Request>, i: nat)
    requires Tracks(m, limit, done) && i < |reqs| == |Unpruned(m, limit, reqs)|
    ensures Unpruned(m, limit, reqs)[i] == DecisionFor(limit, Own(done + reqs[..i], reqs[i].scope), reqs[i])
    decreases |reqs|
  {
    hide ConsumeUnpruned, Own, DecisionFor, Tracks;
    var m' := ConsumeUnpruned(m, limit, reqs[0].scope, reqs[0].amount, reqs[0].now).0;
    TracksStep(m, limit, done, reqs[0]);
    if i == 0 {
      assert done + reqs[..0] == done;
    } else {
      DecisionCount(m', limit, reqs[1..]);
      UnprunedDecision(m', limit, done + [reqs[0]], reqs[1..], i - 1);
      assert done + [reqs[0]] + reqs[1..][..i - 1] == done + reqs[..i];
    }
  }

  lemma NothingTracked(limit: WindowLimit)
    ensures Tracks(map[], limit, [])
  {
  }

  lemma {:induction false} AcceptedIsAdmitted(limit: WindowLimit, reqs: seq<Request>, ds: seq<Decision>, n: nat, s: Scope, lo: int, hi: int)
    requires ds == Unpruned(map[], limit, reqs) && n <= |reqs| == |ds|
    ensures AcceptedFor(reqs[..n], ds[..n], s, lo, hi) == Admitted(limit, Own(reqs[..n], s), lo, hi)
  {
    hide Unpruned, Own, DecisionFor, Admitted, AcceptedFor, Adds;
    if n > 0 {
      var r, prior := reqs[n - 1], Own(reqs[..n - 1], s);
      AcceptedIsAdmitted(limit, reqs, ds, n - 1, s, lo, hi);
      AcceptedSnoc(reqs, ds, n, s, lo, hi);
      OwnNext(reqs, n, s);
      DecidedAt(limit, reqs, n - 1);
      AdmittedSnoc(limit, prior, r, lo, hi);
      assert prior + [] == prior;
    } else {
      NobodyAsked(reqs[..n], s);
      AdmittedEmpty(limit, Own(reqs[..n], s), lo, hi);
      NobodyAccepted(reqs[..n], ds[..n], s, lo, hi);
    }
  }

  lemma NobodyAccepted(reqs: seq<Request>, ds: seq<Decision>, s: Scope, lo: int, hi: int)
    requires reqs == [] && |ds| == 0
    ensures AcceptedFor(reqs, ds, s, lo, hi) == 0
  {
  }

  lemma NobodyAsked(reqs: seq<Request>, s: Scope)
    requires reqs == []
    ensures Own(reqs, s) == []
  {
  }

  /**
    Whatever mix of clients uses the limiter, no client gets more than twice the limit
    accepted in any span of one window length.
  */
  lemma LimiterSpanBound(limit: WindowLimit, reqs: seq<Request>, s: Scope, lo: int)
    requires Forward(reqs) && limit.amount < U64_MAX
    ensures |Pruned(map[], limit, reqs)| == |reqs|
    ensures AcceptedFor(reqs, Pruned(map[], limit, reqs), s, lo, lo + WindowSecs(limit)) <= 2 * limit.amount
  {
    hide Pruned, Unpruned, Admitted, AcceptedFor, Own;
    DecisionCount(map[], limit, reqs);
    PruningInvisible(limit, reqs);
    var ds := Unpruned(map[], limit, reqs);
    AcceptedIsAdmitted(limit, reqs, ds, |reqs|, s, lo, lo + WindowSecs(limit));
    assert reqs[..|reqs|] == reqs && ds[..|ds|] == ds;
    OwnForward(reqs, s, 0);
    SpanBound(limit, Own(reqs, s), lo);
  }
}
