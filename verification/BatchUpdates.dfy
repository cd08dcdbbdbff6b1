/**
  Label updates in protocol v2 batches: `parse_batched_update_headers` folds the deltas of
  each entry into what to set and what to remove. It agrees with the record parser and with
  replaying the deltas exactly when no delta sets a label again after removing it.
*/
module BatchUpdates {
  import opened Common
  import opened Text
  import opened Sorting
  import opened EntryNames
  import opened LabelDelta
  import opened RecordHeaders
  import opened Batch

  datatype EntryLabelUpdate =
    EntryLabelUpdate(entry: string, timestamp: nat, update: Labels, remove: set<string>)

  /** What a batch has done so far to the labels of an entry: set, or removed. */
  type LabelState = map<string, Option<string>>

  // ----- parsing one delta -----

  function Updates(ops: seq<Op>): Labels {
    if ops == [] then map[]
    else
      var front, last := Updates(ops[..|ops| - 1]), ops[|ops| - 1];
      if last.value.Some? then front[last.key := last.value.value] else front
  }

  function Removals(ops: seq<Op>): set<string> {
    if ops == [] then {}
    else
      var front, last := Removals(ops[..|ops| - 1]), ops[|ops| - 1];
      if last.value.None? then front + {last.key} else front
  }

  /** A delta removes the keys that some operation removes, and sets each key to the last value that some operation gives it. */
  lemma {:induction false} DeltaMeans(ops: seq<Op>, k: string)
    ensures k in Removals(ops) <==> exists i :: 0 <= i < |ops| && ops[i] == Op(k, None)
    ensures k in Updates(ops) <==> exists i :: 0 <= i < |ops| && ops[i].key == k && ops[i].value.Some?
    ensures k in Updates(ops) ==> LastSets(ops, k, Updates(ops)[k])
  {
    if ops != [] {
      var front, last := ops[..|ops| - 1], ops[|ops| - 1];
      DeltaMeans(front, k);
      assert ops == front + [last];
      assert forall i :: 0 <= i < |front| ==> ops[i] == front[i];
      if last.key == k && last.value.Some? {
        assert ops[|ops| - 1] == Op(k, Some(Updates(ops)[k]));
      } else if k in Updates(front) {
        LastSetsLonger(front, k, Updates(front)[k], ops);
      }
    }
  }

  ghost predicate LastSets(ops: seq<Op>, k: string, v: string) {
    exists i :: 0 <= i < |ops| && ops[i] == Op(k, Some(v)) && forall j :: i < j < |ops| && ops[j].key == k ==> ops[j].value.None?
  }

  lemma LastSetsLonger(front: seq<Op>, k: string, v: string, ops: seq<Op>)
    requires LastSets(front, k, v) && |ops| == |front| + 1 && ops[..|front|] == front
    requires ops[|front|].key == k ==> ops[|front|].value.None?
    ensures LastSets(ops, k, v)
  {
    var i :| 0 <= i < |front| && front[i] == Op(k, Some(v)) && forall j :: i < j < |front| && front[j].key == k ==> front[j].value.None?;
    assert forall j :: 0 <= j < |front| ==> ops[j] == front[j];
  }

  /** The label part of a header value, `splitn(3, ',').nth(2)`. */
  function DeltaPart(raw: string): Option<string> {
    match SplitOnce(raw, ',')
    case None => None
    case Some((_, rest)) =>
      match SplitOnce(rest, ',')
      case None => None
      case Some((_, labels)) => Some(labels)
  }

  /** The operations a header value asks for. */
  function OpsOf(raw: string, table: Option<seq<string>>): seq<Op> {
    match DeltaPart(raw)
    case None => []
    case Some(labels) =>
      var r := ParseOps(labels, table);
      if r.Ok? then r.value else []
  }

  /** First everything the delta sets, then everything it removes. */
  function Merge(state: LabelState, ops: seq<Op>): LabelState {
    var sets, removals := Updates(ops), Removals(ops);
    state + (map k | k in sets :: Some(sets[k])) + (map k | k in removals :: None)
  }

  function ToUpdate(state: LabelState): Labels {
    map k | k in state && state[k].Some? :: state[k].value
  }

  function ToRemove(state: LabelState): set<string> {
    set k | k in state && state[k].None?
  }

  function StateOf(states: map<string, LabelState>, e: string): LabelState {
    if e in states then states[e] else map[]
  }

  // ----- the update parser -----

  function UpdatesFrom(sorted: seq<Parsed>, entries: seq<string>, start: nat, table: Option<seq<string>>,
                       last: map<string, RecordHeader>, states: map<string, LabelState>): Result<seq<EntryLabelUpdate>>
    decreases |sorted|
  {
    if sorted == [] then Ok([])
    else if sorted[0].idx >= |entries| then Err("entry index out of range")
    else
      var entry := entries[sorted[0].idx];
      var raw :- Received(sorted[0].value, "Invalid batched header");
      var header :- ParseRecordHeader(raw, Lookup(last, entry), table);
      var state := Merge(StateOf(states, entry), OpsOf(raw, table));
      var tail :- UpdatesFrom(sorted[1..], entries, start, table, last[entry := header], states[entry := state]);
      Ok([EntryLabelUpdate(entry, AddU64(start, sorted[0].delta), ToUpdate(state), ToRemove(state))] + tail)
  }

  function ParseBatchUpdates(headers: HeaderMap, names: seq<string>): Result<seq<EntryLabelUpdate>>
    requires InHeaders(names, headers)
  {
    var entries :- ParseEntries(headers);
    var start :- ParseStart(headers);
    var table :- ParseLabels(headers);
    var sorted :- SortHeaders(names, headers);
    UpdatesFrom(sorted, entries, start, table, map[], map[])
  }

  function After(head: seq<EntryLabelUpdate>, r: Result<seq<EntryLabelUpdate>>): Result<seq<EntryLabelUpdate>> {
    if r.Ok? then Ok(head + r.value) else r
  }

  lemma AfterStep(head: seq<EntryLabelUpdate>, x: EntryLabelUpdate, r: Result<seq<EntryLabelUpdate>>)
    ensures After(head, After([x], r)) == After(head + [x], r)
    ensures After([], r) == r
  {
    if r.Ok? {
      assert head + ([x] + r.value) == (head + [x]) + r.value;
      assert [] + r.value == r.value;
    }
  }

  method ParseLabelDelta(raw: string, table: Option<seq<string>>) returns (r: Result<(Labels, set<string>)>)
    ensures r == (var ops := ParseOps(raw, table); if ops.Ok? then Ok((Updates(ops.value), Removals(ops.value))) else Err(ops.reason))
  {
    hide ParseOps;
    var parsed := ParseLabelDeltaOps(raw, table);
    if parsed.Err? { return Err(parsed.reason); }
    var ops := parsed.value;
    var updates: Labels, remove: set<string> := map[], {};
    for i := 0 to |ops|
      invariant updates == Updates(ops[..i]) && remove == Removals(ops[..i])
    {
      assert ops[..i + 1][..i] == ops[..i];
      match ops[i].value
      case Some(v) => updates := updates[ops[i].key := v];
      case None => remove := remove + {ops[i].key};
    }
    assert ops[..|ops|] == ops;
    r := Ok((updates, remove));
  }

  /** A delta that was accepted as part of its header parses again. */
  lemma HeaderDeltaParses(raw: string, previous: Option<RecordHeader>, table: Option<seq<string>>)
    requires ParseRecordHeader(raw, previous, table).Ok?
    ensures DeltaPart(raw).Some? ==> ParseOps(DeltaPart(raw).value, table).Ok?
  {
    hide ParseOps, Trim, SplitOnce, ParseU64;
  }

  lemma MergeNothing(state: LabelState)
    ensures Merge(state, []) == state
  {
  }

  method ParseBatchedUpdateHeaders(headers: HeaderMap, names: seq<string>) returns (r: Result<seq<EntryLabelUpdate>>)
    requires InHeaders(names, headers)
    ensures r == ParseBatchUpdates(headers, names)
  {
    hide ParseRecordHeader, ParseEntries, ParseStart, ParseLabels, SortHeaders, ParseOps, Updates, Removals, DeltaPart, ToUpdate, ToRemove,
         IsHeaderText;
    var entries := ParseEntries(headers);
    if entries.Err? { return Err(entries.reason); }
    var start := ParseStart(headers);
    if start.Err? { return Err(start.reason); }
    var table := ParseLabels(headers);
    if table.Err? { return Err(table.reason); }
    var parsed := SortHeaders(names, headers);
    if parsed.Err? { return Err(parsed.reason); }
    var sorted := parsed.value;
    var last: map<string, RecordHeader>, states: map<string, LabelState> := map[], map[];
    var result: seq<EntryLabelUpdate> := [];
    assert sorted[0..] == sorted;
    AfterStep([], EntryLabelUpdate("", 0, map[], {}), ParseBatchUpdates(headers, names));
    for j := 0 to |sorted|
      invariant ParseBatchUpdates(headers, names) ==
                After(result, UpdatesFrom(sorted[j..], entries.value, start.value, table.value, last, states))
    {
      assert sorted[j..][1..] == sorted[j + 1..] && sorted[j..][0] == sorted[j];
      if sorted[j].idx >= |entries.value| {
        return Err("entry index out of range");
      }
      var entry := entries.value[sorted[j].idx];
      var received := Received(sorted[j].value, "Invalid batched header");
      if received.Err? { return Err(received.reason); }
      var raw := received.value;
      var header := ParseRecordHeader(raw, Lookup(last, entry), table.value);
      if header.Err? { return Err(header.reason); }
      HeaderDeltaParses(raw, Lookup(last, entry), table.value);
      last := last[entry := header.value];
      var state := StateOf(states, entry);
      ghost var ops := OpsOf(raw, table.value);
      MergeNothing(state);
      var part := DeltaPart(raw);
      if part.Some? {
        var delta := ParseLabelDelta(part.value, table.value);
        var (sets, removals) := delta.value;
        state := state + (map k | k in sets :: Some(sets[k])) + (map k | k in removals :: None);
      }
      states := states[entry := state];
      var item := EntryLabelUpdate(entry, AddU64(start.value, sorted[j].delta), ToUpdate(state), ToRemove(state));
      AfterStep(result, item, UpdatesFrom(sorted[j + 1..], entries.value, start.value, table.value, last, states));
      result := result + [item];
    }
    assert result + [] == result;
    r := Ok(result);
  }

  // ----- a delta, label by label -----

  /** The last thing the operations say about a label. */
  function Final(ops: seq<Op>, k: string): Option<Option<string>> {
    if ops == [] then None
    else if ops[|ops| - 1].key == k then Some(ops[|ops| - 1].value)
    else Final(ops[..|ops| - 1], k)
  }

  /** A label that the delta removes is not set again later in the same delta. */
  ghost predicate NoSetAfterRemove(ops: seq<Op>) {
    forall k :: k in Removals(ops) ==> Final(ops, k) == Some(None)
  }

  function Replay(state: LabelState, ops: seq<Op>): LabelState {
    if ops == [] then state
    else Replay(state, ops[..|ops| - 1])[ops[|ops| - 1].key := ops[|ops| - 1].value]
  }

  lemma {:induction false} ReplayAt(state: LabelState, ops: seq<Op>, k: string)
    ensures Lookup(Replay(state, ops), k) == if Final(ops, k).Some? then Final(ops, k) else Lookup(state, k)
  {
    if ops != [] { ReplayAt(state, ops[..|ops| - 1], k); }
  }

  lemma {:induction false} FinalSplits(ops: seq<Op>, k: string)
    ensures Final(ops, k).None? ==> k !in Updates(ops) && k !in Removals(ops)
    ensures Final(ops, k) == Some(None) ==> k in Removals(ops)
    ensures Final(ops, k).Some? && Final(ops, k).value.Some? ==> k in Updates(ops) && Updates(ops)[k] == Final(ops, k).value.value
  {
    if ops != [] { FinalSplits(ops[..|ops| - 1], k); }
  }

  lemma MergeAt(state: LabelState, ops: seq<Op>, k: string)
    ensures k in Removals(ops) ==> Lookup(Merge(state, ops), k) == Some(None)
    ensures k !in Removals(ops) ==> Lookup(Merge(state, ops), k) == if Final(ops, k).Some? then Final(ops, k) else Lookup(state, k)
  {
    hide Final, Updates, Removals;
    FinalSplits(ops, k);
    if k !in Removals(ops) && Final(ops, k).Some? {
      var f := Final(ops, k).value;
      assert f.Some? && f == Some(Updates(ops)[k]);
      assert Lookup(Merge(state, ops), k) == Some(f);
    }
  }

  lemma EqualStates(a: LabelState, b: LabelState)
    requires forall k :: Lookup(a, k) == Lookup(b, k)
    ensures a == b
  {
    assert forall k :: k in a <==> Lookup(a, k).Some?;
    assert forall k :: k in b <==> Lookup(b, k).Some?;
    assert forall k :: k in a ==> Lookup(a, k) == Some(a[k]);
  }

  /** Merging in bulk is replaying one by one exactly when nothing is set after it was removed. */
  lemma MergeIsReplayIff(state: LabelState, ops: seq<Op>)
    ensures Merge(state, ops) == Replay(state, ops) <==> NoSetAfterRemove(ops)
  {
    hide Merge, Replay, Final, Removals;
    forall k
      ensures Lookup(Merge(state, ops), k) == Lookup(Replay(state, ops), k)
              <==> (k in Removals(ops) ==> Final(ops, k) == Some(None))
    {
      MergeAt(state, ops, k);
      ReplayAt(state, ops, k);
      FinalOfRemoved(ops, k);
    }
    if NoSetAfterRemove(ops) {
      EqualStates(Merge(state, ops), Replay(state, ops));
    }
  }

  lemma FinalOfRemoved(ops: seq<Op>, k: string)
    ensures k in Removals(ops) ==> Final(ops, k).Some?
  {
    FinalSplits(ops, k);
  }

  /** A label set again after its removal is lost from the update. */
  lemma LostLabel(state: LabelState, ops: seq<Op>)
    requires !NoSetAfterRemove(ops)
    ensures ToUpdate(Merge(state, ops)) != ToUpdate(Replay(state, ops))
  {
    hide Merge, Replay, Final, Removals;
    var k :| k in Removals(ops) && Final(ops, k) != Some(None);
    FinalOfRemoved(ops, k);
    MergeAt(state, ops, k);
    ReplayAt(state, ops, k);
    assert k in ToUpdate(Replay(state, ops)) && k !in ToUpdate(Merge(state, ops));
  }

  // ----- states and label sets -----

  lemma {:induction false} ApplySnoc(labels: Labels, ops: seq<Op>)
    requires ops != []
    ensures ApplyOps(labels, ops) == ApplyOp(ApplyOps(labels, ops[..|ops| - 1]), ops[|ops| - 1])
    decreases |ops|
  {
    if |ops| > 1 {
      ApplySnoc(ApplyOp(labels, ops[0]), ops[1..]);
      assert ops[1..][..|ops[1..]| - 1] == ops[..|ops| - 1][1..];
      assert ops[1..][|ops[1..]| - 1] == ops[|ops| - 1];
    }
  }

  /** Applies a state to a label set: drop what was removed, then set what was set. */
  function Overlay(labels: Labels, state: LabelState): Labels {
    (labels - ToRemove(state)) + ToUpdate(state)
  }

  lemma OverlayAt(labels: Labels, state: LabelState, k: string)
    ensures Lookup(Overlay(labels, state), k) == if k in state then state[k] else Lookup(labels, k)
  {
  }

  lemma OverlayStep(labels: Labels, state: LabelState, op: Op)
    ensures Overlay(labels, state[op.key := op.value]) == ApplyOp(Overlay(labels, state), op)
  {
    hide Overlay;
    var next := state[op.key := op.value];
    var a, b := Overlay(labels, next), ApplyOp(Overlay(labels, state), op);
    forall k
      ensures k in a <==> k in b
      ensures k in a ==> a[k] == b[k]
    {
      OverlayAt(labels, next, k);
      OverlayAt(labels, state, k);
      assert k in a <==> Lookup(a, k).Some?;
    }
  }

  /** Replaying operations on a state and on the labels it stands for is the same. */
  lemma {:induction false} OverlayReplay(labels: Labels, state: LabelState, ops: seq<Op>)
    ensures Overlay(labels, Replay(state, ops)) == ApplyOps(Overlay(labels, state), ops)
  {
    hide Overlay, ApplyOp;
    if ops != [] {
      var front, last := ops[..|ops| - 1], ops[|ops| - 1];
      OverlayReplay(labels, state, front);
      ApplySnoc(Overlay(labels, state), ops);
      OverlayStep(labels, Replay(state, front), last);
    }
  }

  lemma UpdateIsOverlay(state: LabelState)
    ensures ToUpdate(state) == Overlay(map[], state)
  {
  }

  lemma HeaderLabels(raw: string, previous: Option<RecordHeader>, table: Option<seq<string>>)
    requires ParseRecordHeader(raw, previous, table).Ok?
    ensures ParseRecordHeader(raw, previous, table).value.labels == ApplyOps(BaseLabels(previous), OpsOf(raw, table))
  {
    hide ParseOps, Trim, SplitOnce, ParseU64;
  }

  // ----- whole batches -----

  /** The update parser's state stands for the labels the record parser remembers. */
  ghost predicate InStep(last: map<string, RecordHeader>, states: map<string, LabelState>) {
    forall e :: ToUpdate(StateOf(states, e)) == BaseLabels(Lookup(last, e))
  }

  ghost predicate SameRecord(u: EntryLabelUpdate, r: EntryRecordHeader) {
    u.entry == r.entry && u.timestamp == r.timestamp
  }

  ghost predicate AllAgree(us: seq<EntryLabelUpdate>, rs: seq<EntryRecordHeader>) {
    |us| == |rs| && forall j :: 0 <= j < |us| ==> us[j].update == rs[j].header.labels
  }

  ghost predicate AllClean(sorted: seq<Parsed>, table: Option<seq<string>>) {
    forall j :: 0 <= j < |sorted| ==> NoSetAfterRemove(OpsOf(sorted[j].value, table))
  }

  /** One record: the merged state gives the parsed labels exactly when the delta is clean. */
  lemma StepAgreesIff(state: LabelState, raw: string, previous: Option<RecordHeader>, table: Option<seq<string>>)
    requires ToUpdate(state) == BaseLabels(previous) && ParseRecordHeader(raw, previous, table).Ok?
    ensures ToUpdate(Merge(state, OpsOf(raw, table))) == ParseRecordHeader(raw, previous, table).value.labels
            <==> NoSetAfterRemove(OpsOf(raw, table))
  {
    hide ParseRecordHeader, OpsOf, Merge, Replay, NoSetAfterRemove, ApplyOps, Overlay, ToUpdate;
    var ops := OpsOf(raw, table);
    HeaderLabels(raw, previous, table);
    UpdateIsOverlay(state);
    UpdateIsOverlay(Replay(state, ops));
    OverlayReplay(map[], state, ops);
    MergeIsReplayIff(state, ops);
    if !NoSetAfterRemove(ops) { LostLabel(state, ops); }
  }

  lemma InStepKept(last: map<string, RecordHeader>, states: map<string, LabelState>, e: string, h: RecordHeader, state: LabelState,
                   last': map<string, RecordHeader>, states': map<string, LabelState>)
    requires InStep(last, states) && ToUpdate(state) == h.labels
    requires last' == last[e := h] && states' == states[e := state]
    ensures InStep(last', states')
  {
    hide ToUpdate;
    forall x
      ensures ToUpdate(StateOf(states', x)) == BaseLabels(Lookup(last', x))
    {
      if x != e { assert ToUpdate(StateOf(states, x)) == BaseLabels(Lookup(last, x)); }
    }
  }

  lemma {:induction false} UpdatesAgreeFrom(sorted: seq<Parsed>, entries: seq<string>, start: nat, table: Option<seq<string>>,
                                            last: map<string, RecordHeader>, states: map<string, LabelState>)
    requires InStep(last, states)
    ensures var r := DecodeFrom(sorted, entries, start, table, last);
            var u := UpdatesFrom(sorted, entries, start, table, last, states);
            && SameOutcome(sorted, entries, start, table, last, states)
            && (r.Ok? ==> (AllAgree(u.value, r.value) <==> AllClean(sorted, table)))
    decreases |sorted|
  {
    hide ParseRecordHeader, OpsOf, Merge, NoSetAfterRemove, ToUpdate, ToRemove, IsHeaderText;
    OutcomesMatch(sorted, entries, start, table, last, states);
    if sorted != [] && DecodeFrom(sorted, entries, start, table, last).Ok? {
      var entry := entries[sorted[0].idx];
      var header := ParseRecordHeader(sorted[0].value, Lookup(last, entry), table).value;
      var state := Merge(StateOf(states, entry), OpsOf(sorted[0].value, table));
      var last', states' := last[entry := header], states[entry := state];
      assert ToUpdate(StateOf(states, entry)) == BaseLabels(Lookup(last, entry));
      StepAgreesIff(StateOf(states, entry), sorted[0].value, Lookup(last, entry), table);
      var r := DecodeFrom(sorted, entries, start, table, last).value;
      var u := UpdatesFrom(sorted, entries, start, table, last, states).value;
      assert r[0].header == header && u[0].update == ToUpdate(state);
      assert AllAgree(u, r) <==> u[0].update == r[0].header.labels && AllAgree(u[1..], r[1..]) by {
        if u[0].update == r[0].header.labels && AllAgree(u[1..], r[1..]) { AgreeCons(u, r); }
      }
      assert AllClean(sorted, table) <==> NoSetAfterRemove(OpsOf(sorted[0].value, table)) && AllClean(sorted[1..], table) by {
        CleanCons(sorted, table);
      }
      if NoSetAfterRemove(OpsOf(sorted[0].value, table)) {
        InStepKept(last, states, entry, header, state, last', states');
        UpdatesAgreeFrom(sorted[1..], entries, start, table, last', states');
      }
    }
  }

  lemma AgreeCons(u: seq<EntryLabelUpdate>, r: seq<EntryRecordHeader>)
    requires u != [] && |u| == |r| && u[0].update == r[0].header.labels && AllAgree(u[1..], r[1..])
    ensures AllAgree(u, r)
  {
    forall j | 0 <= j < |u|
      ensures u[j].update == r[j].header.labels
    {
      if j > 0 { assert u[1..][j - 1].update == r[1..][j - 1].header.labels; }
    }
  }

  lemma CleanCons(sorted: seq<Parsed>, table: Option<seq<string>>)
    requires sorted != []
    ensures AllClean(sorted, table) <==> NoSetAfterRemove(OpsOf(sorted[0].value, table)) && AllClean(sorted[1..], table)
  {
    hide NoSetAfterRemove, OpsOf;
    if NoSetAfterRemove(OpsOf(sorted[0].value, table)) && AllClean(sorted[1..], table) {
      forall j | 0 <= j < |sorted|
        ensures NoSetAfterRemove(OpsOf(sorted[j].value, table))
      {
        if j > 0 { assert NoSetAfterRemove(OpsOf(sorted[1..][j - 1].value, table)); }
      }
    }
  }

  /** Both parsers accept, with the same `n` records, or both refuse for the same reason. */
  ghost predicate SameResults(r: Result<seq<EntryRecordHeader>>, u: Result<seq<EntryLabelUpdate>>, n: nat) {
    && (r.Ok? <==> u.Ok?)
    && (r.Ok? ==> |u.value| == |r.value| == n && forall j :: 0 <= j < |u.value| ==> SameRecord(u.value[j], r.value[j]))
    && (r.Err? ==> u.reason == r.reason)
  }

  ghost predicate SameOutcome(sorted: seq<Parsed>, entries: seq<string>, start: nat, table: Option<seq<string>>,
                              last: map<string, RecordHeader>, states: map<string, LabelState>)
  {
    SameResults(DecodeFrom(sorted, entries, start, table, last), UpdatesFrom(sorted, entries, start, table, last, states), |sorted|)
  }

  lemma SameResultsCons(x: EntryRecordHeader, y: EntryLabelUpdate, r: Result<seq<EntryRecordHeader>>, u: Result<seq<EntryLabelUpdate>>,
                        n: nat, r': Result<seq<EntryRecordHeader>>, u': Result<seq<EntryLabelUpdate>>)
    requires SameRecord(y, x) && SameResults(r, u, n)
    requires r' == if r.Ok? then Ok([x] + r.value) else Err(r.reason)
    requires u' == if u.Ok? then Ok([y] + u.value) else Err(u.reason)
    ensures SameResults(r', u', n + 1)
  {
  }

  /** The first record is listed and its header is accepted. */
  predicate FirstAccepted(sorted: seq<Parsed>, entries: seq<string>, table: Option<seq<string>>, last: map<string, RecordHeader>) {
    && sorted != [] && sorted[0].idx < |entries| && IsHeaderText(sorted[0].value)
    && ParseRecordHeader(sorted[0].value, Lookup(last, entries[sorted[0].idx]), table).Ok?
  }

  lemma DecodeNext(sorted: seq<Parsed>, entries: seq<string>, start: nat, table: Option<seq<string>>,
                   last: map<string, RecordHeader>, entry: string, header: RecordHeader)
    requires FirstAccepted(sorted, entries, table, last) && entry == entries[sorted[0].idx]
    requires Ok(header) == ParseRecordHeader(sorted[0].value, Lookup(last, entry), table)
    ensures var tail := DecodeFrom(sorted[1..], entries, start, table, last[entry := header]);
            DecodeFrom(sorted, entries, start, table, last)
            == if tail.Ok? then Ok([EntryRecordHeader(entry, AddU64(start, sorted[0].delta), header)] + tail.value) else Err(tail.reason)
  {
    hide ParseRecordHeader, IsHeaderText;
  }

  lemma UpdatesNext(sorted: seq<Parsed>, entries: seq<string>, start: nat, table: Option<seq<string>>,
                    last: map<string, RecordHeader>, states: map<string, LabelState>, entry: string, header: RecordHeader, state: LabelState)
    requires FirstAccepted(sorted, entries, table, last) && entry == entries[sorted[0].idx]
    requires Ok(header) == ParseRecordHeader(sorted[0].value, Lookup(last, entry), table)
    requires state == Merge(StateOf(states, entry), OpsOf(sorted[0].value, table))
    ensures var tail := UpdatesFrom(sorted[1..], entries, start, table, last[entry := header], states[entry := state]);
            UpdatesFrom(sorted, entries, start, table, last, states)
            == if tail.Ok? then Ok([EntryLabelUpdate(entry, AddU64(start, sorted[0].delta), ToUpdate(state), ToRemove(state))] + tail.value)
               else Err(tail.reason)
  {
    hide ParseRecordHeader, OpsOf, Merge, ToUpdate, ToRemove, IsHeaderText;
  }

  lemma BothRefuse(sorted: seq<Parsed>, entries: seq<string>, start: nat, table: Option<seq<string>>,
                   last: map<string, RecordHeader>, states: map<string, LabelState>)
    requires !FirstAccepted(sorted, entries, table, last)
    ensures SameOutcome(sorted, entries, start, table, last, states)
  {
    hide ParseRecordHeader, OpsOf, Merge, ToUpdate, ToRemove, IsHeaderText;
  }

  lemma {:induction false} OutcomesMatch(sorted: seq<Parsed>, entries: seq<string>, start: nat, table: Option<seq<string>>,
                                         last: map<string, RecordHeader>, states: map<string, LabelState>)
    ensures SameOutcome(sorted, entries, start, table, last, states)
    decreases |sorted|
  {
    hide ParseRecordHeader, OpsOf, Merge, ToUpdate, ToRemove, IsHeaderText, SameResults, DecodeFrom, UpdatesFrom;
    if FirstAccepted(sorted, entries, table, last) {
      var entry, time := entries[sorted[0].idx], AddU64(start, sorted[0].delta);
      var header := ParseRecordHeader(sorted[0].value, Lookup(last, entry), table).value;
      var state := Merge(StateOf(states, entry), OpsOf(sorted[0].value, table));
      var last', states' := last[entry := header], states[entry := state];
      OutcomesMatch(sorted[1..], entries, start, table, last', states');
      DecodeNext(sorted, entries, start, table, last, entry, header);
      UpdatesNext(sorted, entries, start, table, last, states, entry, header, state);
      SameResultsCons(EntryRecordHeader(entry, time, header), EntryLabelUpdate(entry, time, ToUpdate(state), ToRemove(state)),
                      DecodeFrom(sorted[1..], entries, start, table, last'), UpdatesFrom(sorted[1..], entries, start, table, last', states'),
                      |sorted| - 1,
                      DecodeFrom(sorted, entries, start, table, last), UpdatesFrom(sorted, entries, start, table, last, states));
    } else {
      BothRefuse(sorted, entries, start, table, last, states);
    }
  }

  /**
    For every header map: both parsers accept it together, list the same records, and every
    update map equals that record's parsed labels exactly when no delta sets a label after
    removing it.
  */
  lemma UpdatesAgreeIff(headers: HeaderMap, names: seq<string>)
    requires InHeaders(names, headers)
    ensures var r, u := ParseBatch(headers, names), ParseBatchUpdates(headers, names);
            && (r.Ok? <==> u.Ok?)
            && (r.Ok? ==> |u.value| == |r.value| && forall j :: 0 <= j < |u.value| ==> SameRecord(u.value[j], r.value[j]))
            && (r.Ok? ==> (AllAgree(u.value, r.value) <==>
                           AllClean(SortHeaders(names, headers).value, ParseLabels(headers).value)))
  {
    hide ParseEntries, ParseStart, ParseLabels, SortHeaders, DecodeFrom, UpdatesFrom, AllClean, AllAgree;
    var entries, start, table, sorted := ParseEntries(headers), ParseStart(headers), ParseLabels(headers), SortHeaders(names, headers);
    if entries.Ok? && start.Ok? && table.Ok? && sorted.Ok? {
      NothingYet();
      UpdatesAgreeFrom(sorted.value, entries.value, start.value, table.value, map[], map[]);
    }
  }

  lemma NothingYet()
    ensures InStep(map[], map[])
  {
    assert ToUpdate(map[]) == map[];
  }

  // ----- replaying the deltas of an entry -----

  /** The operations that the first `n` headers hold for entry `e`, in order. */
  function History(sorted: seq<Parsed>, entries: seq<string>, table: Option<seq<string>>, n: nat, e: string): seq<Op>
    requires n <= |sorted|
  {
    if n == 0 then []
    else
      var front := History(sorted, entries, table, n - 1, e);
      if sorted[n - 1].idx < |entries| && entries[sorted[n - 1].idx] == e then front + OpsOf(sorted[n - 1].value, table) else front
  }

  ghost predicate StatesReplay(states: map<string, LabelState>, sorted: seq<Parsed>, entries: seq<string>,
                               table: Option<seq<string>>, n: nat)
    requires n <= |sorted|
  {
    forall e :: StateOf(states, e) == Replay(map[], History(sorted, entries, table, n, e))
  }

  lemma {:induction false} ReplayAppend(state: LabelState, a: seq<Op>, b: seq<Op>)
    ensures Replay(state, a + b) == Replay(Replay(state, a), b)
    decreases |b|
  {
    if b == [] {
      assert a + b == a;
    } else {
      assert (a + b)[..|a + b| - 1] == a + b[..|b| - 1];
      ReplayAppend(state, a, b[..|b| - 1]);
    }
  }

  /** Applying an update header to any label set is replaying the entry's deltas on it. */
  ghost predicate Replays(u: EntryLabelUpdate, history: seq<Op>) {
    forall labels: Labels :: (labels - u.remove) + u.update == ApplyOps(labels, history)
  }

  lemma StateReplays(u: EntryLabelUpdate, state: LabelState, history: seq<Op>)
    requires u.update == ToUpdate(state) && u.remove == ToRemove(state) && state == Replay(map[], history)
    ensures Replays(u, history) && u.update.Keys !! u.remove
  {
    hide ApplyOps, Replay;
    forall labels: Labels
      ensures (labels - u.remove) + u.update == ApplyOps(labels, history)
    {
      OverlayReplay(labels, map[], history);
      assert Overlay(labels, map[]) == labels;
    }
  }

  lemma StatesReplayKept(states: map<string, LabelState>, sorted: seq<Parsed>, entries: seq<string>, table: Option<seq<string>>,
                         n: nat, states': map<string, LabelState>)
    requires n < |sorted| && sorted[n].idx < |entries| && StatesReplay(states, sorted, entries, table, n)
    requires NoSetAfterRemove(OpsOf(sorted[n].value, table))
    requires var e := entries[sorted[n].idx];
             states' == states[e := Merge(StateOf(states, e), OpsOf(sorted[n].value, table))]
    ensures StatesReplay(states', sorted, entries, table, n + 1)
  {
    hide Merge, Replay, OpsOf, NoSetAfterRemove;
    var e := entries[sorted[n].idx];
    var ops := OpsOf(sorted[n].value, table);
    forall x
      ensures StateOf(states', x) == Replay(map[], History(sorted, entries, table, n + 1, x))
    {
      assert StateOf(states, x) == Replay(map[], History(sorted, entries, table, n, x));
      if x == e {
        MergeIsReplayIff(StateOf(states, e), ops);
        ReplayAppend(map[], History(sorted, entries, table, n, e), ops);
      }
    }
  }

  lemma {:induction false} UpdatesReplayFrom(sorted: seq<Parsed>, entries: seq<string>, start: nat, table: Option<seq<string>>,
                                             n: nat, last: map<string, RecordHeader>, states: map<string, LabelState>)
    requires n <= |sorted| && AllClean(sorted, table) && StatesReplay(states, sorted, entries, table, n)
    requires UpdatesFrom(sorted[n..], entries, start, table, last, states).Ok?
    ensures var u := UpdatesFrom(sorted[n..], entries, start, table, last, states).value;
            |u| == |sorted| - n &&
            forall j :: 0 <= j < |u| ==>
              Replays(u[j], History(sorted, entries, table, n + j + 1, u[j].entry)) && u[j].update.Keys !! u[j].remove
    decreases |sorted| - n
  {
    hide ParseRecordHeader, OpsOf, Merge, ToUpdate, ToRemove, NoSetAfterRemove, Replays, StatesReplay, History, IsHeaderText;
    if n < |sorted| {
      assert sorted[n..][0] == sorted[n] && sorted[n..][1..] == sorted[n + 1..];
      var entry := entries[sorted[n].idx];
      var header := ParseRecordHeader(sorted[n].value, Lookup(last, entry), table).value;
      var state := Merge(StateOf(states, entry), OpsOf(sorted[n].value, table));
      var states' := states[entry := state];
      StatesReplayKept(states, sorted, entries, table, n, states');
      UpdatesReplayFrom(sorted, entries, start, table, n + 1, last[entry := header], states');
      var u := UpdatesFrom(sorted[n..], entries, start, table, last, states).value;
      HeadReplays(states', sorted, entries, table, n + 1, u[0], entry);
    }
  }

  lemma HeadReplays(states: map<string, LabelState>, sorted: seq<Parsed>, entries: seq<string>, table: Option<seq<string>>,
                    n: nat, u: EntryLabelUpdate, e: string)
    requires n <= |sorted| && StatesReplay(states, sorted, entries, table, n) && e in states
    requires u.entry == e && u.update == ToUpdate(states[e]) && u.remove == ToRemove(states[e])
    ensures Replays(u, History(sorted, entries, table, n, e)) && u.update.Keys !! u.remove
  {
    hide History, Replay, Replays, ToUpdate, ToRemove;
    assert StateOf(states, e) == states[e];
    StateReplays(u, states[e], History(sorted, entries, table, n, e));
  }

  /**
    In a batch of clean deltas, what each update header sets and removes is disjoint, and
    applying it to any label set equals replaying that entry's deltas so far one by one.
  */
  lemma UpdatesReplayDeltas(headers: HeaderMap, names: seq<string>)
    requires InHeaders(names, headers) && ParseBatchUpdates(headers, names).Ok?
    requires AllClean(SortHeaders(names, headers).value, ParseLabels(headers).value)
    ensures var u := ParseBatchUpdates(headers, names).value;
            var sorted, entries, table := SortHeaders(names, headers).value, ParseEntries(headers).value, ParseLabels(headers).value;
            |u| == |sorted| &&
            forall j :: 0 <= j < |u| ==>
              Replays(u[j], History(sorted, entries, table, j + 1, u[j].entry)) && u[j].update.Keys !! u[j].remove
  {
    hide ParseEntries, ParseStart, ParseLabels, SortHeaders, UpdatesFrom, AllClean, History, Replays;
    var sorted, entries, table := SortHeaders(names, headers).value, ParseEntries(headers).value, ParseLabels(headers).value;
    assert sorted[0..] == sorted;
    NoHistory(sorted, entries, table);
    UpdatesReplayFrom(sorted, entries, ParseStart(headers).value, table, 0, map[], map[]);
  }

  lemma NoHistory(sorted: seq<Parsed>, entries: seq<string>, table: Option<seq<string>>)
    ensures StatesReplay(map[], sorted, entries, table, 0)
  {
  }

  // ----- a header for which the parsers disagree -----

  /** A label name that needs no table. */
  predicate PlainKey(k: string) {
    k != "" && Trimmed(k) && '=' !in k && !Reserved(k) && IsHeaderText(k)
  }

  /** The delta that removes `k` and then sets it to `v`. */
  function RemoveThenSet(k: string, v: string): string {
    k + "=" + ("," + (k + "=" + v))
  }

  lemma SetParses(k: string, v: string)
    requires PlainKey(k) && ValueParses(v) && ',' !in v
    ensures ParseOpsFrom(k + "=" + v, None) == Ok([Op(k, Some(v))])
  {
    hide IndexOf, Trim, IsHeaderText;
    SplitOnceAt(k, '=', v);
  }

  lemma RemoveComesFirst(k: string, v: string)
    requires PlainKey(k) && ValueParses(v) && ',' !in v
    ensures SplitOnce(RemoveThenSet(k, v), '=') == Some((k, "," + (k + "=" + v)))
    ensures NextValue("," + (k + "=" + v)) == Ok(("", k + "=" + v))
  {
    hide IndexOf, Trim, IsHeaderText, SplitOnce, NextValue, ValueParses;
    var setting := k + "=" + v;
    SettingTrimmed(k, v);
    SplitOnceAt(k, '=', "," + setting);
    EmptyValueNext(setting);
  }

  lemma SettingTrimmed(k: string, v: string)
    requires PlainKey(k) && ValueParses(v)
    ensures k + "=" + v != "" && Trimmed(k + "=" + v)
  {
    hide IndexOf, Trim, IsHeaderText;
    var setting := k + "=" + v;
    assert setting[0] == k[0] && setting[|setting| - 1] == v[|v| - 1];
  }

  lemma EmptyValueNext(rest: string)
    requires rest != "" && Trimmed(rest)
    ensures NextValue("," + rest) == Ok(("", rest))
  {
    hide IndexOf, IsHeaderText;
    SplitOnceAt("", ',', rest);
    assert "" + [','] + rest == "," + rest;
  }

  lemma RemoveThenSetTrimmed(k: string, v: string)
    requires PlainKey(k) && ValueParses(v)
    ensures RemoveThenSet(k, v) != "" && Trimmed(RemoveThenSet(k, v))
  {
    var all := RemoveThenSet(k, v);
    assert all[0] == k[0] && all[|all| - 1] == v[|v| - 1];
  }

  lemma RemoveThenSetParses(k: string, v: string)
    requires PlainKey(k) && ValueParses(v) && ',' !in v
    ensures RemoveThenSet(k, v) != ""
    ensures ParseOps(RemoveThenSet(k, v), None) == Ok([Op(k, None), Op(k, Some(v))])
  {
    hide Trim, IsHeaderText, ParseOpsFrom, RemoveThenSet, PlainKey, ValueParses, SplitOnce, NextValue;
    RemoveThenSetTrimmed(k, v);
    SetParses(k, v);
    RemoveComesFirst(k, v);
    RemoveThenSetOps(k, v);
    assert [Op(k, None)] + [Op(k, Some(v))] == [Op(k, None), Op(k, Some(v))];
  }

  lemma RemoveThenSetOps(k: string, v: string)
    requires PlainKey(k)
    requires SplitOnce(RemoveThenSet(k, v), '=') == Some((k, "," + (k + "=" + v)))
    requires NextValue("," + (k + "=" + v)) == Ok(("", k + "=" + v)) && k + "=" + v != ""
    requires ParseOpsFrom(k + "=" + v, None) == Ok([Op(k, Some(v))])
    ensures ParseOpsFrom(RemoveThenSet(k, v), None) == Ok([Op(k, None)] + [Op(k, Some(v))])
  {
    hide SplitOnce, NextValue, Trim, IsHeaderText;
  }

  /** What the two operations do, one by one and merged. */
  lemma RemoveThenSetEffects(k: string, v: string)
    ensures var ops := [Op(k, None), Op(k, Some(v))];
            && !NoSetAfterRemove(ops)
            && ApplyOps(map[], ops) == map[k := v]
            && ToUpdate(Merge(map[], ops)) == map[] && ToRemove(Merge(map[], ops)) == {k}
  {
    var remove, ops := [Op(k, None)], [Op(k, None), Op(k, Some(v))];
    assert ops[..1] == remove && remove[..0] == [];
    assert Updates(remove) == Updates([]) == map[] && Removals(remove) == {} + {k};
    assert Removals(ops) == {k} && Updates(ops) == map[][k := v];
    assert Final(ops, k) == Some(Some(v));
    assert ops[1..] == [Op(k, Some(v))] && ops[1..][1..] == [];
    assert ApplyOps(map[], ops) == ApplyOps(map[] - {k}, ops[1..]) == ApplyOps((map[] - {k})[k := v], []);
    assert k in Removals(ops);
  }

  /** A batch of one record whose delta removes `k` and then sets it. */
  function ClashingBatch(entry: string, start: nat, length: nat, contentType: string, k: string, v: string): HeaderMap
    requires IsBytes(entry)
  {
    map[ENTRIES_HEADER := MakeNamesHeader([entry]), START_TS_HEADER := Render(start),
        HeaderName(0, 0) := HeaderText(length, contentType, RemoveThenSet(k, v))]
  }

  const CLASHING_NAMES: seq<string> := [HeaderName(0, 0), ENTRIES_HEADER, START_TS_HEADER]

  lemma ClashingText(length: nat, contentType: string, k: string, v: string)
    requires IsHeaderText(contentType) && IsHeaderText(k) && IsHeaderText(v)
    ensures IsHeaderText(HeaderText(length, contentType, RemoveThenSet(k, v)))
  {
    hide IsHeaderText, HeaderText;
    OneText('=');
    OneText(',');
    TextAppend(k, "=");
    TextAppend(k + "=", v);
    TextAppend(",", k + "=" + v);
    TextAppend(k + "=", "," + (k + "=" + v));
    HeaderTextIsTextIff(length, contentType, RemoveThenSet(k, v));
  }

  lemma DeltaPartOf(length: nat, contentType: string, delta: string)
    requires ContentTypeParses(contentType) && delta != ""
    ensures DeltaPart(HeaderText(length, contentType, delta)) == Some(delta)
  {
    hide Render, SplitOnce;
    NoCommaInNumber(length);
    SplitOnceAt(Render(length), ',', contentType + "," + delta);
    SplitOnceAt(contentType, ',', delta);
  }

  lemma ClashingValue(length: nat, contentType: string, k: string, v: string)
    requires length <= U64_MAX && ContentTypeSurvives(contentType)
    requires PlainKey(k) && ValueSurvives(v) && ',' !in v
    ensures var text, ops := HeaderText(length, contentType, RemoveThenSet(k, v)), [Op(k, None), Op(k, Some(v))];
            && IsHeaderText(text) && OpsOf(text, None) == ops
            && ParseRecordHeader(text, None, None) == Ok(RecordHeader(length, contentType, ApplyOps(map[], ops)))
  {
    hide ParseOps, ParseRecordHeader, IsHeaderText, HeaderText, DeltaPart, ApplyOps, RemoveThenSet, ValueParses, ContentTypeParses,
         ParsedContentType;
    RemoveThenSetParses(k, v);
    ParseWithDelta(length, contentType, RemoveThenSet(k, v), None, None, [Op(k, None), Op(k, Some(v))]);
    TypeKept(contentType);
    ClashingText(length, contentType, k, v);
    DeltaPartOf(length, contentType, RemoveThenSet(k, v));
  }

  lemma TypeKept(contentType: string)
    requires ContentTypeSurvives(contentType)
    ensures ParsedContentType(contentType, None) == contentType
  {
  }

  lemma ClashingParts(entry: string, start: nat, length: nat, contentType: string, k: string, v: string)
    requires CleanName(entry) && start <= U64_MAX
    ensures var h := ClashingBatch(entry, start, length, contentType, k, v);
            && InHeaders(CLASHING_NAMES, h) && Enumerates(CLASHING_NAMES, h.Keys)
            && ParseEntries(h) == Ok([entry]) && ParseStart(h) == Ok(start) && ParseLabels(h) == Ok(None)
            && SortHeaders(CLASHING_NAMES, h) == Ok([Parsed(0, 0, HeaderText(length, contentType, RemoveThenSet(k, v)))])
  {
    hide HeaderName, IsBatched, ParseHeaderName, HeaderText, RemoveThenSet, MakeNamesHeader, ParseEntriesHeader, ParseU64, Render,
         IsHeaderText, ParseLabelsHeader, ParseEntries, ParseStart, ParseLabels;
    FixedNamesNotBatched();
    HeaderNameRoundTrip(0, 0);
    ClashingFixed(entry, start, length, contentType, k, v);
    ClashingSorted(ClashingBatch(entry, start, length, contentType, k, v));
  }

  lemma ClashingFixed(entry: string, start: nat, length: nat, contentType: string, k: string, v: string)
    requires CleanName(entry) && start <= U64_MAX
    ensures var h := ClashingBatch(entry, start, length, contentType, k, v);
            ParseEntries(h) == Ok([entry]) && ParseStart(h) == Ok(start) && ParseLabels(h) == Ok(None)
  {
    hide HeaderName, IsBatched, ParseHeaderName, HeaderText, RemoveThenSet, MakeNamesHeader, ParseEntriesHeader, ParseU64, Render,
         IsHeaderText, ParseLabelsHeader;
    FixedNamesNotBatched();
    HeaderNameRoundTrip(0, 0);
    EntriesHeaderRoundTripIff([entry]);
    ParseOfRender(start);
    DigitsAreText(Render(start));
  }

  /** Of the three headers only that of the record is collected. */
  lemma ClashingSorted(h: HeaderMap)
    requires HeaderName(0, 0) in h && InHeaders(CLASHING_NAMES, h)
    ensures SortHeaders(CLASHING_NAMES, h) == Ok([Parsed(0, 0, h[HeaderName(0, 0)])])
  {
    hide HeaderName, IsBatched, ParseHeaderName;
    FixedNamesNotBatched();
    HeaderNameRoundTrip(0, 0);
    assert CLASHING_NAMES[1..] == [ENTRIES_HEADER, START_TS_HEADER] && CLASHING_NAMES[1..][1..] == [START_TS_HEADER]
           && CLASHING_NAMES[1..][1..][1..] == [];
    assert CollectHeaders([START_TS_HEADER], h) == Ok([]);
    assert CollectHeaders([ENTRIES_HEADER, START_TS_HEADER], h) == Ok([]);
    var p := Parsed(0, 0, h[HeaderName(0, 0)]);
    assert CollectHeaders(CLASHING_NAMES, h) == Ok([p] + []);
    assert [p] + [] == [p] && [p][1..] == [];
    assert Sort([p], ByEntryAndTime) == [p];
  }

  /**
    In a batch with a delta that removes a label and then sets it, the record parser reports the
    label and the update parser removes it.
  */
  lemma SetAfterRemoveDisagrees(entry: string, start: nat, length: nat, contentType: string, k: string, v: string)
    requires CleanName(entry) && start <= U64_MAX && length <= U64_MAX && ContentTypeSurvives(contentType)
    requires PlainKey(k) && ValueSurvives(v) && ',' !in v
    ensures var h := ClashingBatch(entry, start, length, contentType, k, v);
            && InHeaders(CLASHING_NAMES, h) && Enumerates(CLASHING_NAMES, h.Keys)
            && ParseBatch(h, CLASHING_NAMES)
               == Ok([EntryRecordHeader(entry, start, RecordHeader(length, contentType, map[k := v]))])
            && ParseBatchUpdates(h, CLASHING_NAMES) == Ok([EntryLabelUpdate(entry, start, map[], {k})])
  {
    hide ParseEntries, ParseStart, ParseLabels, SortHeaders, ParseRecordHeader, IsHeaderText, OpsOf, Merge, ToUpdate, ToRemove,
         ApplyOps, HeaderText, ClashingBatch, CleanName, PlainKey, ValueSurvives, ContentTypeSurvives;
    var text := HeaderText(length, contentType, RemoveThenSet(k, v));
    ClashingParts(entry, start, length, contentType, k, v);
    ClashingValue(length, contentType, k, v);
    RemoveThenSetEffects(k, v);
    AddBack(0, start);
    var p := Parsed(0, 0, text);
    assert [p][1..] == [];
    var header := RecordHeader(length, contentType, map[k := v]);
    var item, update := EntryRecordHeader(entry, start, header), EntryLabelUpdate(entry, start, map[], {k});
    assert [item] + [] == [item] && [update] + [] == [update];
    assert DecodeFrom([p], [entry], start, None, map[]) == Ok([item] + []);
    assert UpdatesFrom([p], [entry], start, None, map[], map[]) == Ok([update] + []);
  }
}
