/**
  Whole batches of protocol v2: the header map of a response, its parser, and the proof
  that parsing recovers every record whatever the order of the hash maps involved.
*/
module Batch {
  import opened Common
  import opened Text
  import opened Sorting
  import opened EntryNames
  import opened LabelDelta
  import opened RecordHeaders

  const HEADER_PREFIX := "x-reduct-"
  const ENTRIES_HEADER := "x-reduct-entries"
  const START_TS_HEADER := "x-reduct-start-ts"
  const LABELS_HEADER := "x-reduct-labels"

  type HeaderMap = map<string, string>

  /** A record to be sent: its entry, timestamp and metadata. */
  datatype Rec = Rec(entry: string, ts: nat, meta: Meta)

  datatype EntryRecordHeader = EntryRecordHeader(entry: string, timestamp: nat, header: RecordHeader)

  /** A batched header with its name taken apart. */
  datatype Parsed = Parsed(idx: nat, delta: nat, value: string)

  // ----- header names -----

  function HeaderName(idx: nat, delta: nat): string {
    HEADER_PREFIX + Render(idx) + "-" + Render(delta)
  }

  function ParseHeaderName(name: string): Result<(nat, nat)> {
    if !StartsWith(name, HEADER_PREFIX) then Err("Invalid batched header")
    else
      match RSplitOnce(name[|HEADER_PREFIX|..], '-')
      case None => Err("Invalid batched header")
      case Some((idx, delta)) =>
        if ParseU64(idx).None? then Err("entry index must be a number")
        else if ParseU64(delta).None? then Err("must be an unix timestamp in microseconds")
        else Ok((ParseU64(idx).value, ParseU64(delta).value))
  }

  /** The headers that `sort_headers_by_entry_and_time` looks at. */
  predicate IsBatched(name: string) {
    && StartsWith(name, HEADER_PREFIX)
    && RSplitOnce(name, '-').Some?
    && AllDigits(RSplitOnce(name, '-').value.1)
  }

  lemma NoDashInNumber(n: nat)
    ensures '-' !in Render(n)
  {
    hide Render;
    assert forall i :: 0 <= i < |Render(n)| ==> IsDigit(Render(n)[i]);
  }

  lemma HeaderNameRoundTrip(idx: nat, delta: nat)
    requires idx <= U64_MAX && delta <= U64_MAX
    ensures IsBatched(HeaderName(idx, delta))
    ensures ParseHeaderName(HeaderName(idx, delta)) == Ok((idx, delta))
  {
    hide Render, ParseU64, RSplitOnce, StartsWith, AllDigits;
    NameIsPrefixed(idx, delta);
    NumberIsDigits(delta);
    NoDashInNumber(delta);
    RSplitOnceAt(HEADER_PREFIX + Render(idx), '-', Render(delta));
    RSplitOnceAt(Render(idx), '-', Render(delta));
    ParseOfRender(idx);
    ParseOfRender(delta);
  }

  lemma NameIsPrefixed(idx: nat, delta: nat)
    ensures var name := HeaderName(idx, delta);
            && StartsWith(name, HEADER_PREFIX)
            && name == (HEADER_PREFIX + Render(idx)) + ['-'] + Render(delta)
            && name[|HEADER_PREFIX|..] == Render(idx) + ['-'] + Render(delta)
  {
    hide Render;
    var name := HeaderName(idx, delta);
    assert name[..|HEADER_PREFIX|] == HEADER_PREFIX;
  }

  lemma NumberIsDigits(n: nat)
    ensures AllDigits(Render(n))
  {
    hide Render;
  }

  lemma FixedNamesNotBatched()
    ensures !IsBatched(ENTRIES_HEADER) && !IsBatched(START_TS_HEADER) && !IsBatched(LABELS_HEADER)
    ensures ENTRIES_HEADER != START_TS_HEADER && ENTRIES_HEADER != LABELS_HEADER && START_TS_HEADER != LABELS_HEADER
  {
    RSplitOnceAt("x-reduct", '-', "entries");
    RSplitOnceAt("x-reduct-start", '-', "ts");
    RSplitOnceAt("x-reduct", '-', "labels");
    assert !IsDigit("entries"[0]) && !IsDigit("ts"[0]) && !IsDigit("labels"[0]);
  }

  // ----- parsing -----

  predicate ByEntryAndTime(a: Parsed, b: Parsed) {
    a.idx < b.idx || (a.idx == b.idx && a.delta <= b.delta)
  }

  /** The batched headers in the order the header map yields its names. */
  function CollectHeaders(names: seq<string>, headers: HeaderMap): Result<seq<Parsed>>
    requires forall i :: 0 <= i < |names| ==> names[i] in headers
  {
    if names == [] then Ok([])
    else if !IsBatched(names[0]) then CollectHeaders(names[1..], headers)
    else
      var head :- ParseHeaderName(names[0]);
      var tail :- CollectHeaders(names[1..], headers);
      Ok([Parsed(head.0, head.1, headers[names[0]])] + tail)
  }

  function SortHeaders(names: seq<string>, headers: HeaderMap): Result<seq<Parsed>>
    requires forall i :: 0 <= i < |names| ==> names[i] in headers
  {
    var parsed :- CollectHeaders(names, headers);
    Ok(Sort(parsed, ByEntryAndTime))
  }

  function ParseEntries(headers: HeaderMap): Result<seq<string>> {
    if ENTRIES_HEADER in headers then ParseEntriesHeader(headers[ENTRIES_HEADER]) else Ok([])
  }

  function ParseStart(headers: HeaderMap): Result<nat> {
    if START_TS_HEADER !in headers then Err("x-reduct-start-ts header is required")
    else
      var text :- Received(headers[START_TS_HEADER], "Invalid x-reduct-start-ts header");
      if ParseU64(text).None? then Err("Invalid x-reduct-start-ts header") else Ok(ParseU64(text).value)
  }

  function ParseLabels(headers: HeaderMap): Result<Option<seq<string>>> {
    if LABELS_HEADER !in headers then Ok(None)
    else
      var names :- ParseLabelsHeader(headers[LABELS_HEADER]);
      Ok(Some(names))
  }

  function AddU64(a: nat, b: nat): nat {
    (a + b) % (U64_MAX + 1)
  }

  function DecodeFrom(sorted: seq<Parsed>, entries: seq<string>, start: nat, table: Option<seq<string>>,
                      last: map<string, RecordHeader>): Result<seq<EntryRecordHeader>>
    decreases |sorted|
  {
    if sorted == [] then Ok([])
    else if sorted[0].idx >= |entries| then Err("entry index out of range")
    else
      var entry := entries[sorted[0].idx];
      var raw :- Received(sorted[0].value, "Invalid batched header");
      var header :- ParseRecordHeader(raw, Lookup(last, entry), table);
      var tail :- DecodeFrom(sorted[1..], entries, start, table, last[entry := header]);
      Ok([EntryRecordHeader(entry, AddU64(start, sorted[0].delta), header)] + tail)
  }

  /** `parse_batched_headers`; `names` is the order in which the header map yields its names. */
  function ParseBatch(headers: HeaderMap, names: seq<string>): Result<seq<EntryRecordHeader>>
    requires forall i :: 0 <= i < |names| ==> names[i] in headers
  {
    var entries :- ParseEntries(headers);
    var start :- ParseStart(headers);
    var table :- ParseLabels(headers);
    var sorted :- SortHeaders(names, headers);
    DecodeFrom(sorted, entries, start, table, map[])
  }

  function After(head: seq<EntryRecordHeader>, r: Result<seq<EntryRecordHeader>>): Result<seq<EntryRecordHeader>> {
    if r.Ok? then Ok(head + r.value) else r
  }

  lemma AfterStep(head: seq<EntryRecordHeader>, x: EntryRecordHeader, r: Result<seq<EntryRecordHeader>>)
    ensures After(head, After([x], r)) == After(head + [x], r)
  {
    if r.Ok? { assert head + ([x] + r.value) == (head + [x]) + r.value; }
  }

  method ParseBatchedHeaders(headers: HeaderMap, names: seq<string>) returns (r: Result<seq<EntryRecordHeader>>)
    requires forall i :: 0 <= i < |names| ==> names[i] in headers
    ensures r == ParseBatch(headers, names)
  {
    hide ParseRecordHeader, ParseEntries, ParseStart, ParseLabels, SortHeaders, IsHeaderText;
    var entries := ParseEntries(headers);
    if entries.Err? { return Err(entries.reason); }
    var start := ParseStart(headers);
    if start.Err? { return Err(start.reason); }
    var table := ParseLabels(headers);
    if table.Err? { return Err(table.reason); }
    var parsed := SortHeaders(names, headers);
    if parsed.Err? { return Err(parsed.reason); }
    var sorted := parsed.value;
    var last: map<string, RecordHeader> := map[];
    var result: seq<EntryRecordHeader> := [];
    assert sorted[0..] == sorted;
    assert After([], DecodeFrom(sorted, entries.value, start.value, table.value, last)) == ParseBatch(headers, names) by {
      var d := DecodeFrom(sorted, entries.value, start.value, table.value, last);
      if d.Ok? { assert [] + d.value == d.value; }
    }
    for j := 0 to |sorted|
      invariant ParseBatch(headers, names) ==
                After(result, DecodeFrom(sorted[j..], entries.value, start.value, table.value, last))
    {
      assert sorted[j..][1..] == sorted[j + 1..] && sorted[j..][0] == sorted[j];
      if sorted[j].idx >= |entries.value| {
        return Err("entry index out of range");
      }
      var entry := entries.value[sorted[j].idx];
      var raw := Received(sorted[j].value, "Invalid batched header");
      if raw.Err? { return Err(raw.reason); }
      var header := ParseRecordHeader(raw.value, Lookup(last, entry), table.value);
      if header.Err? { return Err(header.reason); }
      last := last[entry := header.value];
      var item := EntryRecordHeader(entry, AddU64(start.value, sorted[j].delta), header.value);
      AfterStep(result, item, DecodeFrom(sorted[j + 1..], entries.value, start.value, table.value, last));
      result := result + [item];
    }
    assert result + [] == result;
    r := Ok(result);
  }

  // ----- the response of a batched read -----

  /** The last record before position `i` with entry `e`, or -1. */
  function LastBefore(recs: seq<Rec>, i: nat, e: string): (r: int)
    requires i <= |recs|
    ensures -1 <= r < i
    ensures 0 <= r ==> recs[r].entry == e
    ensures forall k :: r < k < i ==> recs[k].entry != e
  {
    if i == 0 then -1
    else if recs[i - 1].entry == e then i - 1
    else LastBefore(recs, i - 1, e)
  }

  /** The last metadata of entry `e` before position `i`. */
  function PreviousOf(recs: seq<Rec>, i: nat, e: string): Option<Meta>
    requires i <= |recs|
  {
    var p := LastBefore(recs, i, e);
    if p < 0 then None else Some(recs[p].meta)
  }

  /** The previous record of the same entry, as the encoder remembers it. */
  function Previous(recs: seq<Rec>, i: nat): Option<Meta>
    requires i < |recs|
  {
    PreviousOf(recs, i, recs[i].entry)
  }

  ghost predicate ValidRun(recs: seq<Rec>, orders: seq<Orders>) {
    |orders| == |recs| && forall i :: 0 <= i < |recs| ==> ValidOrders(orders[i], recs[i].meta, Previous(recs, i))
  }

  /** The label table before record `i` is encoded. */
  ghost function TableAt(recs: seq<Rec>, orders: seq<Orders>, i: nat): (t: seq<string>)
    requires ValidRun(recs, orders) && i <= |recs|
    ensures Unique(t)
  {
    if i == 0 then []
    else Register(RecordOps(recs[i - 1].meta, Previous(recs, i - 1), orders[i - 1]), TableAt(recs, orders, i - 1))
  }

  ghost function ValueAt(recs: seq<Rec>, orders: seq<Orders>, i: nat): string
    requires ValidRun(recs, orders) && i < |recs|
  {
    RecordValue(recs[i].meta, Previous(recs, i), orders[i], TableAt(recs, orders, i))
  }

  lemma PreviousStep(recs: seq<Rec>, i: nat, e: string)
    requires i < |recs|
    ensures PreviousOf(recs, i + 1, e) == if recs[i].entry == e then Some(recs[i].meta) else PreviousOf(recs, i, e)
  {
  }

  /**
    Encodes the records in arrival order, remembering the last record of each entry; without
    values where one of them is no text for a header and the code panics.
  */
  method EncodeValues(recs: seq<Rec>, orders: seq<Orders>, index: LabelIndex) returns (values: Option<seq<string>>)
    requires ValidRun(recs, orders) && index.Valid() && index.names == []
    modifies index
    ensures values.Some? <==> forall i :: 0 <= i < |recs| ==> IsHeaderValue(ValueAt(recs, orders, i))
    ensures values.Some? ==>
              && index.Valid() && index.names == TableAt(recs, orders, |recs|) && |values.value| == |recs|
              && forall i :: 0 <= i < |recs| ==> values.value[i] == ValueAt(recs, orders, i)
  {
    hide RecordValue, RecordOps, ValidOrders, Register, PreviousOf, Unique, IsHeaderValue;
    var made: seq<string> := [];
    var prevMeta: map<string, Meta> := map[];
    NoPrevious(recs);
    for i := 0 to |recs|
      invariant index.Valid() && index.names == TableAt(recs, orders, i)
      invariant |made| == i
      invariant forall k :: 0 <= k < i ==> made[k] == ValueAt(recs, orders, k) && IsHeaderValue(made[k])
      invariant forall e :: Lookup(prevMeta, e) == PreviousOf(recs, i, e)
    {
      var value := MakeRecordHeaderValue(recs[i].meta, Lookup(prevMeta, recs[i].entry), index, orders[i]);
      assert value == if IsHeaderValue(ValueAt(recs, orders, i)) then Some(ValueAt(recs, orders, i)) else None;
      if value.None? { return None; }
      made := made + [value.value];
      var next := prevMeta[recs[i].entry := recs[i].meta];
      forall e
        ensures Lookup(next, e) == PreviousOf(recs, i + 1, e)
      {
        PreviousStep(recs, i, e);
      }
      prevMeta := next;
    }
    values := Some(made);
  }

  lemma NoPrevious(recs: seq<Rec>)
    ensures forall e :: PreviousOf(recs, 0, e) == None
  {
  }

  /** Time only moves forward within an entry. */
  ghost predicate ForwardPerEntry(recs: seq<Rec>) {
    forall i, j :: 0 <= i < j < |recs| && recs[i].entry == recs[j].entry ==> recs[i].ts < recs[j].ts
  }

  function EntryIndex(entries: seq<string>, e: string): nat {
    Position(entries, e)
  }

  ghost function NameAt(recs: seq<Rec>, entries: seq<string>, start: nat, i: nat): string
    requires i < |recs| && start <= recs[i].ts
  {
    HeaderName(EntryIndex(entries, recs[i].entry), recs[i].ts - start)
  }

  /** `entries` lists every entry of the batch once and `start` is no later than any record. */
  ghost predicate Frames(recs: seq<Rec>, entries: seq<string>, start: nat) {
    && Unique(entries)
    && forall i :: 0 <= i < |recs| ==> recs[i].entry in entries && start <= recs[i].ts
  }

  /** The header map after headers were inserted one after the other. */
  function InsertAll(base: HeaderMap, items: seq<(string, string)>): HeaderMap {
    if items == [] then base
    else InsertAll(base, items[..|items| - 1])[items[|items| - 1].0 := items[|items| - 1].1]
  }

  ghost function RecordItems(recs: seq<Rec>, orders: seq<Orders>, entries: seq<string>, start: nat)
    : (items: seq<(string, string)>)
    requires ValidRun(recs, orders) && Frames(recs, entries, start)
  {
    seq(|recs|, i requires 0 <= i < |recs| => (NameAt(recs, entries, start, i), ValueAt(recs, orders, i)))
  }

  ghost function FixedHeaders(table: seq<string>, entries: seq<string>, start: nat): HeaderMap
    requires AllBytes(entries) && AllBytes(table)
  {
    var h := map[ENTRIES_HEADER := MakeNamesHeader(entries), START_TS_HEADER := Render(start)];
    if table == [] then h else h[LABELS_HEADER := MakeNamesHeader(table)]
  }

  /** The headers of a batched response: the names and start headers, then one header per record. */
  ghost function ResponseHeaders(recs: seq<Rec>, orders: seq<Orders>, entries: seq<string>, start: nat): HeaderMap
    requires ValidRun(recs, orders) && Frames(recs, entries, start)
    requires AllBytes(entries) && AllBytes(TableAt(recs, orders, |recs|))
  {
    InsertAll(FixedHeaders(TableAt(recs, orders, |recs|), entries, start), RecordItems(recs, orders, entries, start))
  }

  // ----- what the header map holds -----

  ghost predicate SmallNumbers(recs: seq<Rec>, entries: seq<string>) {
    |entries| <= U64_MAX && forall i :: 0 <= i < |recs| ==> recs[i].ts <= U64_MAX
  }

  /** Two records share a header exactly when they have the same entry and time; then one of them is lost. */
  lemma NamesCollideIff(recs: seq<Rec>, entries: seq<string>, start: nat, i: nat, j: nat)
    requires Frames(recs, entries, start) && SmallNumbers(recs, entries)
    requires i < |recs| && j < |recs|
    ensures NameAt(recs, entries, start, i) == NameAt(recs, entries, start, j)
            <==> recs[i].entry == recs[j].entry && recs[i].ts == recs[j].ts
  {
    hide HeaderName, ParseHeaderName, Position;
    var a, b := EntryIndex(entries, recs[i].entry), EntryIndex(entries, recs[j].entry);
    assert entries[a] == recs[i].entry && entries[b] == recs[j].entry;
    HeaderNameOnce(a, recs[i].ts - start, b, recs[j].ts - start);
  }

  lemma HeaderNameOnce(a: nat, d: nat, b: nat, e: nat)
    requires a <= U64_MAX && d <= U64_MAX && b <= U64_MAX && e <= U64_MAX
    ensures HeaderName(a, d) == HeaderName(b, e) <==> a == b && d == e
  {
    hide HeaderName, ParseHeaderName;
    HeaderNameRoundTrip(a, d);
    HeaderNameRoundTrip(b, e);
  }

  lemma NamesDiffer(recs: seq<Rec>, entries: seq<string>, start: nat, i: nat, j: nat)
    requires Frames(recs, entries, start) && SmallNumbers(recs, entries) && ForwardPerEntry(recs)
    requires i < j < |recs|
    ensures NameAt(recs, entries, start, i) != NameAt(recs, entries, start, j)
  {
    hide NameAt, Frames, SmallNumbers;
    NamesCollideIff(recs, entries, start, i, j);
  }

  ghost predicate DistinctNames(items: seq<(string, string)>) {
    forall i, j :: 0 <= i < j < |items| ==> items[i].0 != items[j].0
  }

  ghost predicate HasName(items: seq<(string, string)>, name: string) {
    exists i :: 0 <= i < |items| && items[i].0 == name
  }

  lemma HasNameNext(items: seq<(string, string)>, name: string)
    requires items != []
    ensures HasName(items, name) <==> HasName(items[..|items| - 1], name) || items[|items| - 1].0 == name
  {
    var front := items[..|items| - 1];
    if HasName(front, name) {
      var i :| 0 <= i < |front| && front[i].0 == name;
      assert items[i].0 == name;
    }
  }

  lemma {:induction false} InsertedAt(base: HeaderMap, items: seq<(string, string)>, i: nat)
    requires DistinctNames(items) && i < |items|
    ensures items[i].0 in InsertAll(base, items) && InsertAll(base, items)[items[i].0] == items[i].1
  {
    if i < |items| - 1 { InsertedAt(base, items[..|items| - 1], i); }
  }

  lemma {:induction false} InsertedElsewhere(base: HeaderMap, items: seq<(string, string)>, name: string)
    ensures var h := InsertAll(base, items);
            && (name in h <==> name in base || HasName(items, name))
            && (name in base && !HasName(items, name) ==> h[name] == base[name])
  {
    if items != [] {
      HasNameNext(items, name);
      hide HasName;
      InsertedElsewhere(base, items[..|items| - 1], name);
    }
  }

  lemma InsertAllMembers(base: HeaderMap, items: seq<(string, string)>)
    requires DistinctNames(items)
    ensures var h := InsertAll(base, items);
            && (forall i :: 0 <= i < |items| ==> items[i].0 in h && h[items[i].0] == items[i].1)
            && (forall name :: name in h <==> name in base || HasName(items, name))
            && (forall name :: name in base && !HasName(items, name) ==> h[name] == base[name])
  {
    hide InsertAll, DistinctNames, HasName;
    forall i | 0 <= i < |items|
      ensures items[i].0 in InsertAll(base, items) && InsertAll(base, items)[items[i].0] == items[i].1
    {
      InsertedAt(base, items, i);
    }
    forall name
      ensures name in InsertAll(base, items) <==> name in base || HasName(items, name)
      ensures name in base && !HasName(items, name) ==> InsertAll(base, items)[name] == base[name]
    {
      InsertedElsewhere(base, items, name);
    }
  }

  // ----- the sorted headers list the records -----

  ghost predicate Canonical(name: string) {
    var r := ParseHeaderName(name);
    r.Ok? && HeaderName(r.value.0, r.value.1) == name
  }

  /** `p` is the batched header of one of `names`. */
  ghost predicate FromName(p: Parsed, names: seq<string>, headers: HeaderMap)
    requires forall i :: 0 <= i < |names| ==> names[i] in headers
  {
    var n := HeaderName(p.idx, p.delta);
    n in names && IsBatched(n) && ParseHeaderName(n) == Ok((p.idx, p.delta)) && headers[n] == p.value
  }

  function Key(p: Parsed): (nat, nat) {
    (p.idx, p.delta)
  }

  ghost predicate InHeaders(names: seq<string>, headers: HeaderMap) {
    forall i :: 0 <= i < |names| ==> names[i] in headers
  }

  ghost predicate AllCanonical(names: seq<string>) {
    forall i :: 0 <= i < |names| && IsBatched(names[i]) ==> Canonical(names[i])
  }

  lemma FromNameStep(p: Parsed, names: seq<string>, headers: HeaderMap)
    requires names != [] && InHeaders(names, headers)
    ensures InHeaders(names[1..], headers)
    ensures FromName(p, names, headers) <==>
            FromName(p, names[1..], headers) ||
            (HeaderName(p.idx, p.delta) == names[0] && FromName(p, [names[0]], headers))
  {
    hide HeaderName, ParseHeaderName, IsBatched;
    assert names == [names[0]] + names[1..];
  }

  lemma FromFirst(p: Parsed, name: string, headers: HeaderMap)
    requires name in headers && IsBatched(name) && Canonical(name)
    ensures var r := ParseHeaderName(name).value;
            (HeaderName(p.idx, p.delta) == name && FromName(p, [name], headers)) <==> p == Parsed(r.0, r.1, headers[name])
  {
    hide HeaderName, ParseHeaderName, IsBatched;
  }

  lemma {:induction false} CollectMembers(names: seq<string>, headers: HeaderMap)
    requires InHeaders(names, headers) && AllCanonical(names)
    ensures CollectHeaders(names, headers).Ok?
    ensures forall p :: p in CollectHeaders(names, headers).value <==> FromName(p, names, headers)
  {
    hide HeaderName, ParseHeaderName, IsBatched;
    if names != [] {
      var rest := names[1..];
      CollectMembers(rest, headers);
      hide FromName;
      forall p
        ensures p in CollectHeaders(names, headers).value <==> FromName(p, names, headers)
      {
        FromNameStep(p, names, headers);
        if IsBatched(names[0]) {
          FromFirst(p, names[0], headers);
        } else {
          FromUnbatched(p, names[0], headers);
        }
      }
    }
  }

  lemma FromUnbatched(p: Parsed, name: string, headers: HeaderMap)
    requires name in headers && !IsBatched(name)
    ensures !(HeaderName(p.idx, p.delta) == name && FromName(p, [name], headers))
  {
    hide HeaderName, ParseHeaderName, IsBatched;
  }

  lemma {:induction false} CollectDistinct(names: seq<string>, headers: HeaderMap)
    requires Unique(names) && InHeaders(names, headers) && AllCanonical(names)
    ensures CollectHeaders(names, headers).Ok? && DistinctBy(CollectHeaders(names, headers).value, Key)
  {
    hide HeaderName, ParseHeaderName, IsBatched;
    if names != [] {
      var rest := names[1..];
      CollectDistinct(rest, headers);
      CollectMembers(rest, headers);
      var tail := CollectHeaders(rest, headers).value;
      if IsBatched(names[0]) {
        assert Canonical(names[0]);
        var head := Parsed(ParseHeaderName(names[0]).value.0, ParseHeaderName(names[0]).value.1, headers[names[0]]);
        forall i | 0 <= i < |tail|
          ensures Key(tail[i]) != Key(head)
        {
          assert tail[i] in tail && HeaderName(tail[i].idx, tail[i].delta) in rest;
          assert names[0] !in rest;
        }
      }
    }
  }

  /** `p` is the header of record `i`. */
  ghost predicate IsRec(p: Parsed, i: nat, recs: seq<Rec>, orders: seq<Orders>, entries: seq<string>, start: nat)
    requires ValidRun(recs, orders) && Frames(recs, entries, start)
  {
    && i < |recs|
    && p.idx == EntryIndex(entries, recs[i].entry) && p.delta == recs[i].ts - start
    && p.value == ValueAt(recs, orders, i)
  }

  ghost predicate HasRec(p: Parsed, recs: seq<Rec>, orders: seq<Orders>, entries: seq<string>, start: nat)
    requires ValidRun(recs, orders) && Frames(recs, entries, start)
  {
    exists i: nat :: IsRec(p, i, recs, orders, entries, start)
  }

  ghost predicate IsListed(sorted: seq<Parsed>, i: nat, recs: seq<Rec>, orders: seq<Orders>,
                           entries: seq<string>, start: nat)
    requires ValidRun(recs, orders) && Frames(recs, entries, start)
  {
    exists j :: 0 <= j < |sorted| && IsRec(sorted[j], i, recs, orders, entries, start)
  }

  ghost predicate StrictlyBefore(a: Parsed, b: Parsed) {
    a.idx < b.idx || (a.idx == b.idx && a.delta < b.delta)
  }

  /** The parsed headers are those of the records, each once, by entry and time. */
  ghost predicate Lists(sorted: seq<Parsed>, recs: seq<Rec>, orders: seq<Orders>, entries: seq<string>, start: nat)
    requires ValidRun(recs, orders) && Frames(recs, entries, start)
  {
    && (forall j :: 0 <= j < |sorted| ==> HasRec(sorted[j], recs, orders, entries, start))
    && (forall i :: 0 <= i < |recs| ==> IsListed(sorted, i, recs, orders, entries, start))
    && StrictlySorted(sorted)
  }

  lemma ByEntryAndTimeTotal()
    ensures TotalPreorder(ByEntryAndTime)
  {
  }

  lemma SortedStrict(parsed: seq<Parsed>)
    requires DistinctBy(parsed, Key)
    ensures StrictlySorted(Sort(parsed, ByEntryAndTime))
  {
    hide Sort;
    var s := Sort(parsed, ByEntryAndTime);
    ByEntryAndTimeTotal();
    SortSorts(parsed, ByEntryAndTime);
    SortDistinct(parsed, ByEntryAndTime, Key);
    forall j, k | 0 <= j < k < |s|
      ensures StrictlyBefore(s[j], s[k])
    {
      assert ByEntryAndTime(s[j], s[k]) && Key(s[j]) != Key(s[k]);
    }
  }

  ghost predicate ResponseReady(recs: seq<Rec>, orders: seq<Orders>, entries: seq<string>, start: nat) {
    && ValidRun(recs, orders) && Frames(recs, entries, start)
    && AllBytes(entries) && AllBytes(TableAt(recs, orders, |recs|))
    && SmallNumbers(recs, entries) && ForwardPerEntry(recs)
  }

  ghost predicate HoldsRecord(h: HeaderMap, recs: seq<Rec>, orders: seq<Orders>, entries: seq<string>, start: nat, i: nat)
    requires ValidRun(recs, orders) && Frames(recs, entries, start) && i < |recs|
  {
    var name := NameAt(recs, entries, start, i);
    name in h && h[name] == ValueAt(recs, orders, i)
  }

  ghost predicate NamesRecord(name: string, recs: seq<Rec>, entries: seq<string>, start: nat)
    requires Frames(recs, entries, start)
  {
    exists i :: 0 <= i < |recs| && name == NameAt(recs, entries, start, i)
  }

  lemma ItemsDistinct(recs: seq<Rec>, orders: seq<Orders>, entries: seq<string>, start: nat)
    requires ResponseReady(recs, orders, entries, start)
    ensures DistinctNames(RecordItems(recs, orders, entries, start))
    ensures forall name :: HasName(RecordItems(recs, orders, entries, start), name) <==> NamesRecord(name, recs, entries, start)
  {
    hide ValueAt, HeaderName;
    var items := RecordItems(recs, orders, entries, start);
    forall i, j | 0 <= i < j < |items|
      ensures items[i].0 != items[j].0
    {
      NamesDiffer(recs, entries, start, i, j);
    }
    forall name
      ensures HasName(items, name) <==> NamesRecord(name, recs, entries, start)
    {
      if HasName(items, name) {
        var i :| 0 <= i < |items| && items[i].0 == name;
        assert name == NameAt(recs, entries, start, i);
      }
      if NamesRecord(name, recs, entries, start) {
        var i :| 0 <= i < |recs| && name == NameAt(recs, entries, start, i);
        assert items[i].0 == name;
      }
    }
  }

  lemma RecordNamesBatched(recs: seq<Rec>, orders: seq<Orders>, entries: seq<string>, start: nat, name: string)
    requires ResponseReady(recs, orders, entries, start) && NamesRecord(name, recs, entries, start)
    ensures IsBatched(name) && Canonical(name)
  {
    hide HeaderName, IsBatched, ParseHeaderName, TableAt, AllBytes, ValidRun, ForwardPerEntry, Unique, Position;
    var i :| 0 <= i < |recs| && name == NameAt(recs, entries, start, i);
    HeaderNameRoundTrip(EntryIndex(entries, recs[i].entry), recs[i].ts - start);
  }

  /** What the response's header map holds. */
  lemma ResponseMembers(recs: seq<Rec>, orders: seq<Orders>, entries: seq<string>, start: nat)
    requires ResponseReady(recs, orders, entries, start)
    ensures var h := ResponseHeaders(recs, orders, entries, start);
            var fixed := FixedHeaders(TableAt(recs, orders, |recs|), entries, start);
            && (forall i :: 0 <= i < |recs| ==> HoldsRecord(h, recs, orders, entries, start, i))
            && (forall name :: name in fixed ==> name in h && h[name] == fixed[name])
            && (forall name :: name in h ==> name in fixed || NamesRecord(name, recs, entries, start))
  {
    hide ValueAt, InsertAll, FixedHeaders, HeaderName, IsBatched, NamesRecord, HasName, DistinctNames, Frames, SmallNumbers, ForwardPerEntry;
    var items := RecordItems(recs, orders, entries, start);
    var fixed := FixedHeaders(TableAt(recs, orders, |recs|), entries, start);
    ItemsDistinct(recs, orders, entries, start);
    InsertAllMembers(fixed, items);
    FixedOnly(TableAt(recs, orders, |recs|), entries, start);
    forall name | name in fixed
      ensures !HasName(items, name)
    {
      if NamesRecord(name, recs, entries, start) {
        RecordNamesBatched(recs, orders, entries, start, name);
      }
    }
    var h := InsertAll(fixed, items);
    forall i | 0 <= i < |recs|
      ensures HoldsRecord(h, recs, orders, entries, start, i)
    {
      assert items[i].0 in h;
    }
  }

  lemma FixedOnly(table: seq<string>, entries: seq<string>, start: nat)
    requires AllBytes(entries) && AllBytes(table)
    ensures forall name :: name in FixedHeaders(table, entries, start) ==> !IsBatched(name)
  {
    hide IsBatched, MakeNamesHeader, Render, AllBytes;
    FixedNamesNotBatched();
  }

  // ----- decoding the listed headers -----

  /** `e` was seen before position `j`. */
  ghost predicate Seen(sorted: seq<Parsed>, j: nat, entries: seq<string>, e: string)
    requires j <= |sorted|
  {
    exists k :: 0 <= k < j && sorted[k].idx < |entries| && entries[sorted[k].idx] == e
  }

  /** The marked labels that the decoder has for record `i`: its computed labels over those of earlier records of the entry. */
  ghost function ComputedUpTo(recs: seq<Rec>, i: nat): Labels
    requires i < |recs|
    decreases i
  {
    var p := LastBefore(recs, i, recs[i].entry);
    (if p < 0 then map[] else ComputedUpTo(recs, p)) + AtLabels(recs[i].meta.computed)
  }

  /** The decoded header is that of record `i`, computed labels included. */
  ghost predicate CarriesAt(h: RecordHeader, recs: seq<Rec>, i: nat)
    requires i < |recs|
  {
    Carries(h, recs[i].meta) && Marked(h.labels) == ComputedUpTo(recs, i)
  }

  /** The decoder holds the header of the previous record of the entry of record `i`. */
  ghost predicate HoldsPrevious(decoded: Option<RecordHeader>, recs: seq<Rec>, i: nat)
    requires i < |recs|
  {
    var p := LastBefore(recs, i, recs[i].entry);
    if p < 0 then decoded.None? else decoded.Some? && CarriesAt(decoded.value, recs, p)
  }

  /** The decoder's memory at position `j`: nothing but seen entries, and the header just decoded, of record `before`. */
  ghost predicate Remembers(last: map<string, RecordHeader>, sorted: seq<Parsed>, j: nat, entries: seq<string>, recs: seq<Rec>, before: nat)
    requires j <= |sorted|
  {
    && (forall e :: e in last ==> Seen(sorted, j, entries, e))
    && (j == 0 || (
          && before < |recs| && sorted[j - 1].idx < |entries|
          && entries[sorted[j - 1].idx] in last && CarriesAt(last[entries[sorted[j - 1].idx]], recs, before)))
  }

  /** The record listed just before, when it is of the same entry, is the encoder's previous record. */
  lemma PreviousListed(sorted: seq<Parsed>, recs: seq<Rec>, orders: seq<Orders>, entries: seq<string>, start: nat,
                       j: nat, i: nat, before: nat)
    requires ValidRun(recs, orders) && Frames(recs, entries, start) && ForwardPerEntry(recs)
    requires Lists(sorted, recs, orders, entries, start)
    requires 0 < j < |sorted| && IsRec(sorted[j], i, recs, orders, entries, start)
    requires IsRec(sorted[j - 1], before, recs, orders, entries, start)
    requires sorted[j - 1].idx == sorted[j].idx
    ensures LastBefore(recs, i, recs[i].entry) == before
  {
    hide ValueAt, ValidRun, Position;
    var e := recs[i].entry;
    assert recs[before].entry == e;
    assert StrictlySorted(sorted);
    assert StrictlyBefore(sorted[j - 1], sorted[j]);
    assert before < i;
    var p := LastBefore(recs, i, e);
    assert before <= p;
    assert IsListed(sorted, p, recs, orders, entries, start);
    var k :| 0 <= k < |sorted| && IsRec(sorted[k], p, recs, orders, entries, start);
    assert recs[p].ts < recs[i].ts;
    PositionBefore(sorted, k, j);
    NotAfter(sorted, k, j - 1);
    assert recs[p].ts <= recs[before].ts;
    assert p <= before;
  }

  lemma NotAfter(sorted: seq<Parsed>, k: nat, j: nat)
    requires StrictlySorted(sorted) && k <= j < |sorted|
    ensures ByEntryAndTime(sorted[k], sorted[j])
  {
    if k < j { assert StrictlyBefore(sorted[k], sorted[j]); }
  }

  ghost predicate StrictlySorted(sorted: seq<Parsed>) {
    forall j, k :: 0 <= j < k < |sorted| ==> StrictlyBefore(sorted[j], sorted[k])
  }

  lemma PositionBefore(sorted: seq<Parsed>, k: nat, j: nat)
    requires StrictlySorted(sorted) && k < |sorted| && j < |sorted|
    requires StrictlyBefore(sorted[k], sorted[j])
    ensures k < j
  {
  }

  lemma IndexBelow(sorted: seq<Parsed>, k: nat, j: nat)
    requires StrictlySorted(sorted) && k < j < |sorted| && sorted[j - 1].idx != sorted[j].idx
    ensures sorted[k].idx < sorted[j].idx
  {
    NotAfter(sorted, k, j - 1);
    NotAfter(sorted, j - 1, j);
  }

  lemma NoPreviousListed(sorted: seq<Parsed>, recs: seq<Rec>, orders: seq<Orders>, entries: seq<string>, start: nat,
                         j: nat, i: nat)
    requires ValidRun(recs, orders) && Frames(recs, entries, start) && ForwardPerEntry(recs)
    requires Lists(sorted, recs, orders, entries, start)
    requires j < |sorted| && IsRec(sorted[j], i, recs, orders, entries, start)
    requires j == 0 || sorted[j - 1].idx != sorted[j].idx
    ensures LastBefore(recs, i, recs[i].entry) < 0
  {
    hide ValueAt, ValidRun, Position;
    var p := LastBefore(recs, i, recs[i].entry);
    if p >= 0 {
      assert IsListed(sorted, p, recs, orders, entries, start);
      var k :| 0 <= k < |sorted| && IsRec(sorted[k], p, recs, orders, entries, start);
      assert recs[p].ts < recs[i].ts;
      PositionBefore(sorted, k, j);
      IndexBelow(sorted, k, j);
      assert false;
    }
  }

  lemma NotSeen(sorted: seq<Parsed>, j: nat, entries: seq<string>, e: string)
    requires j < |sorted| && Unique(entries) && sorted[j].idx < |entries| && entries[sorted[j].idx] == e
    requires StrictlySorted(sorted)
    requires j == 0 || sorted[j - 1].idx != sorted[j].idx
    ensures !Seen(sorted, j, entries, e)
  {
    forall k | 0 <= k < j && sorted[k].idx < |entries|
      ensures entries[sorted[k].idx] != e
    {
      IndexBelow(sorted, k, j);
    }
  }

  /** A decoded item is that of record `i`. */
  ghost predicate Recovers(item: EntryRecordHeader, recs: seq<Rec>, i: nat)
    requires i < |recs|
  {
    item.entry == recs[i].entry && item.timestamp == recs[i].ts && CarriesAt(item.header, recs, i)
  }

  ghost predicate AllSurvive(recs: seq<Rec>) {
    forall i :: 0 <= i < |recs| ==> MetaSurvives(recs[i].meta)
  }

  lemma {:induction false} TableGrows(recs: seq<Rec>, orders: seq<Orders>, i: nat, j: nat)
    requires ValidRun(recs, orders) && i <= j <= |recs|
    ensures TableAt(recs, orders, i) <= TableAt(recs, orders, j)
  {
    hide TableAt, ValidRun, Unique;
    if i < j {
      TableGrows(recs, orders, i, j - 1);
      TableStep(recs, orders, j - 1);
    }
  }

  lemma TableStep(recs: seq<Rec>, orders: seq<Orders>, i: nat)
    requires ValidRun(recs, orders) && i < |recs|
    ensures TableAt(recs, orders, i + 1)
            == Register(RecordOps(recs[i].meta, Previous(recs, i), orders[i]), TableAt(recs, orders, i))
    ensures TableAt(recs, orders, i) <= TableAt(recs, orders, i + 1)
  {
    hide RecordOps, ValidOrders, Register;
  }

  /** Decoding the value of record `i` after its previous record carries its metadata. */
  lemma ValueDecodes(recs: seq<Rec>, orders: seq<Orders>, i: nat, decoded: Option<RecordHeader>)
    requires ValidRun(recs, orders) && AllSurvive(recs) && i < |recs|
    requires |TableAt(recs, orders, |recs|)| <= U64_MAX
    requires HoldsPrevious(decoded, recs, i)
    ensures IsHeaderText(ValueAt(recs, orders, i))
    ensures var final := TableAt(recs, orders, |recs|);
            var r := ParseRecordHeader(ValueAt(recs, orders, i), decoded, if final == [] then None else Some(final));
            r.Ok? && CarriesAt(r.value, recs, i)
  {
    hide ParseRecordHeader, RecordValue, MetaSurvives, ValidOrders, Register, RecordOps, Carries, TableAt, Unique, Marked,
         IsHeaderText, IsHeaderValue;
    RecordValueIsText(recs[i].meta, Previous(recs, i), orders[i], TableAt(recs, orders, i));
    NoMarks();
    TableStep(recs, orders, i);
    TableGrows(recs, orders, i + 1, |recs|);
    RecordRoundTrip(recs[i].meta, Previous(recs, i), orders[i], TableAt(recs, orders, i), TableAt(recs, orders, |recs|), decoded);
  }

  lemma NoMarks()
    ensures Marked(map[]) == map[]
  {
  }

  /** The previous header the decoder holds for the entry at position `j` is that of the encoder. */
  lemma DecoderPrevious(sorted: seq<Parsed>, recs: seq<Rec>, orders: seq<Orders>, entries: seq<string>, start: nat,
                        j: nat, i: nat, last: map<string, RecordHeader>, before: nat)
    requires ValidRun(recs, orders) && Frames(recs, entries, start) && ForwardPerEntry(recs)
    requires Lists(sorted, recs, orders, entries, start)
    requires j < |sorted| && IsRec(sorted[j], i, recs, orders, entries, start)
    requires Remembers(last, sorted, j, entries, recs, before)
    requires j == 0 || IsRec(sorted[j - 1], before, recs, orders, entries, start)
    ensures sorted[j].idx < |entries| && entries[sorted[j].idx] == recs[i].entry
    ensures HoldsPrevious(Lookup(last, recs[i].entry), recs, i)
  {
    hide ValueAt, ValidRun, ForwardPerEntry, CarriesAt;
    if j > 0 && sorted[j - 1].idx == sorted[j].idx {
      PreviousListed(sorted, recs, orders, entries, start, j, i, before);
    } else {
      NoPreviousListed(sorted, recs, orders, entries, start, j, i);
      NotSeen(sorted, j, entries, recs[i].entry);
    }
  }

  ghost predicate ItemRecovers(item: EntryRecordHeader, p: Parsed, recs: seq<Rec>, orders: seq<Orders>,
                               entries: seq<string>, start: nat)
    requires ValidRun(recs, orders) && Frames(recs, entries, start)
  {
    exists i :: 0 <= i < |recs| && IsRec(p, i, recs, orders, entries, start) && Recovers(item, recs, i)
  }

  ghost function FinalTable(recs: seq<Rec>, orders: seq<Orders>): Option<seq<string>>
    requires ValidRun(recs, orders)
  {
    var final := TableAt(recs, orders, |recs|);
    if final == [] then None else Some(final)
  }

  ghost predicate Decodable(recs: seq<Rec>, orders: seq<Orders>, entries: seq<string>, start: nat) {
    && ResponseReady(recs, orders, entries, start) && AllSurvive(recs)
    && |TableAt(recs, orders, |recs|)| <= U64_MAX
  }

  lemma AddBack(start: nat, ts: nat)
    requires start <= ts <= U64_MAX
    ensures AddU64(start, ts - start) == ts
  {
  }

  /** One step of the decoder recovers the record at position `j` and keeps its memory. */
  lemma DecodeStep(sorted: seq<Parsed>, recs: seq<Rec>, orders: seq<Orders>, entries: seq<string>, start: nat,
                   j: nat, last: map<string, RecordHeader>, before: nat)
    returns (i: nat, h: RecordHeader)
    requires Decodable(recs, orders, entries, start) && Lists(sorted, recs, orders, entries, start)
    requires j < |sorted| && Remembers(last, sorted, j, entries, recs, before)
    requires j == 0 || IsRec(sorted[j - 1], before, recs, orders, entries, start)
    ensures i < |recs| && IsRec(sorted[j], i, recs, orders, entries, start)
    ensures sorted[j].idx < |entries| && entries[sorted[j].idx] == recs[i].entry
    ensures IsHeaderText(sorted[j].value)
    ensures ParseRecordHeader(sorted[j].value, Lookup(last, recs[i].entry), FinalTable(recs, orders)) == Ok(h)
    ensures AddU64(start, sorted[j].delta) == recs[i].ts && CarriesAt(h, recs, i)
    ensures Remembers(last[recs[i].entry := h], sorted, j + 1, entries, recs, i)
  {
    hide ParseRecordHeader, ValueAt, ValidRun, ForwardPerEntry, CarriesAt, HoldsPrevious, TableAt, AllBytes, AllSurvive, IsHeaderText;
    assert HasRec(sorted[j], recs, orders, entries, start);
    i :| IsRec(sorted[j], i, recs, orders, entries, start);
    DecoderPrevious(sorted, recs, orders, entries, start, j, i, last, before);
    ValueDecodes(recs, orders, i, Lookup(last, recs[i].entry));
    h := ParseRecordHeader(sorted[j].value, Lookup(last, recs[i].entry), FinalTable(recs, orders)).value;
    AddBack(start, recs[i].ts);
    StillSeen(last, sorted, j, entries, recs[i].entry, h, last[recs[i].entry := h]);
  }

  lemma StillSeen(last: map<string, RecordHeader>, sorted: seq<Parsed>, j: nat, entries: seq<string>, e: string, h: RecordHeader,
                  next: map<string, RecordHeader>)
    requires next == last[e := h]
    requires j < |sorted| && sorted[j].idx < |entries| && entries[sorted[j].idx] == e
    requires forall x :: x in last ==> Seen(sorted, j, entries, x)
    ensures forall x :: x in next ==> Seen(sorted, j + 1, entries, x)
  {
    forall x | x in next
      ensures Seen(sorted, j + 1, entries, x)
    {
      if x == e {
        assert sorted[j].idx < |entries| && entries[sorted[j].idx] == x;
      } else {
        assert Seen(sorted, j, entries, x);
      }
    }
  }

  lemma {:induction false} DecodeLists(sorted: seq<Parsed>, recs: seq<Rec>, orders: seq<Orders>, entries: seq<string>,
                                       start: nat, j: nat, last: map<string, RecordHeader>, before: nat)
    requires Decodable(recs, orders, entries, start) && Lists(sorted, recs, orders, entries, start)
    requires j <= |sorted| && Remembers(last, sorted, j, entries, recs, before)
    requires j == 0 || IsRec(sorted[j - 1], before, recs, orders, entries, start)
    ensures var r := DecodeFrom(sorted[j..], entries, start, FinalTable(recs, orders), last);
            && r.Ok? && |r.value| == |sorted| - j
            && (forall k :: 0 <= k < |r.value| ==> ItemRecovers(r.value[k], sorted[j + k], recs, orders, entries, start))
    decreases |sorted| - j
  {
    hide ParseRecordHeader, IsRec, Lists, Remembers, CarriesAt, IsHeaderText, FinalTable, ValidRun, Frames, AllBytes, AllSurvive, TableAt;
    if j < |sorted| {
      var i, h := DecodeStep(sorted, recs, orders, entries, start, j, last, before);
      DecodeLists(sorted, recs, orders, entries, start, j + 1, last[recs[i].entry := h], i);
      assert sorted[j..][0] == sorted[j] && sorted[j..][1..] == sorted[j + 1..];
      var tail := DecodeFrom(sorted[j + 1..], entries, start, FinalTable(recs, orders), last[recs[i].entry := h]).value;
      var item := EntryRecordHeader(recs[i].entry, AddU64(start, sorted[j].delta), h);
      assert DecodeFrom(sorted[j..], entries, start, FinalTable(recs, orders), last) == Ok([item] + tail);
      assert Recovers(item, recs, i);
      assert ItemRecovers(item, sorted[j], recs, orders, entries, start);
    }
  }

  // ----- the whole batch -----

  /** Sorting the response's batched headers lists the records. */
  lemma ResponseLists(recs: seq<Rec>, orders: seq<Orders>, entries: seq<string>, start: nat, names: seq<string>)
    requires ResponseReady(recs, orders, entries, start)
    requires Enumerates(names, ResponseHeaders(recs, orders, entries, start).Keys)
    ensures var h := ResponseHeaders(recs, orders, entries, start);
            && InHeaders(names, h) && SortHeaders(names, h).Ok?
            && Lists(SortHeaders(names, h).value, recs, orders, entries, start)
  {
    hide ValueAt, HeaderName, IsBatched, ParseHeaderName, CollectHeaders, Sort, NamesRecord, Frames, SmallNumbers,
         ForwardPerEntry, AllBytes, TableAt, ResponseHeaders, FixedHeaders, ValidRun, HoldsRecord, FromName, IsRec,
         HasRec, StrictlySorted;
    var h := ResponseHeaders(recs, orders, entries, start);
    ResponseMembers(recs, orders, entries, start);
    assert InHeaders(names, h);
    NamesCanonical(recs, orders, entries, start, names);
    CollectMembers(names, h);
    CollectDistinct(names, h);
    var parsed := CollectHeaders(names, h).value;
    SortedStrict(parsed);
    var sorted := Sort(parsed, ByEntryAndTime);
    forall j | 0 <= j < |sorted|
      ensures HasRec(sorted[j], recs, orders, entries, start)
    {
      SameElements(sorted, parsed, sorted[j]);
      FromNameIsRec(recs, orders, entries, start, names, sorted[j]);
    }
    forall i | 0 <= i < |recs|
      ensures IsListed(sorted, i, recs, orders, entries, start)
    {
      var p := RecFromName(recs, orders, entries, start, names, i);
      SameElements(sorted, parsed, p);
      var j :| 0 <= j < |sorted| && sorted[j] == p;
      assert IsRec(sorted[j], i, recs, orders, entries, start);
    }
    assert StrictlySorted(sorted);
  }

  lemma NamesCanonical(recs: seq<Rec>, orders: seq<Orders>, entries: seq<string>, start: nat, names: seq<string>)
    requires ResponseReady(recs, orders, entries, start)
    requires Enumerates(names, ResponseHeaders(recs, orders, entries, start).Keys)
    ensures AllCanonical(names)
  {
    hide IsBatched, NamesRecord, ResponseHeaders, FixedHeaders, Canonical, Unique, ResponseReady, HoldsRecord;
    assert ResponseReady(recs, orders, entries, start);
    ResponseMembers(recs, orders, entries, start);
    forall k | 0 <= k < |names| && IsBatched(names[k])
      ensures Canonical(names[k])
    {
      assert names[k] in names;
      BatchedIsRecord(recs, orders, entries, start, names[k]);
      RecordNamesBatched(recs, orders, entries, start, names[k]);
    }
  }

  lemma BatchedIsRecord(recs: seq<Rec>, orders: seq<Orders>, entries: seq<string>, start: nat, name: string)
    requires ResponseReady(recs, orders, entries, start) && IsBatched(name)
    requires name in ResponseHeaders(recs, orders, entries, start)
    ensures NamesRecord(name, recs, entries, start)
  {
    hide IsBatched, NamesRecord, ResponseHeaders, FixedHeaders, HoldsRecord, TableAt, AllBytes, ValidRun, ForwardPerEntry, SmallNumbers;
    ResponseMembers(recs, orders, entries, start);
    FixedOnly(TableAt(recs, orders, |recs|), entries, start);
  }

  lemma HoldsAt(recs: seq<Rec>, orders: seq<Orders>, entries: seq<string>, start: nat, i: nat)
    requires ResponseReady(recs, orders, entries, start) && i < |recs|
    ensures HoldsRecord(ResponseHeaders(recs, orders, entries, start), recs, orders, entries, start, i)
  {
    hide ResponseHeaders, FixedHeaders, HoldsRecord, TableAt, AllBytes, ValidRun, ForwardPerEntry, SmallNumbers, Frames;
    ResponseMembers(recs, orders, entries, start);
  }

  lemma FromNameIsRec(recs: seq<Rec>, orders: seq<Orders>, entries: seq<string>, start: nat, names: seq<string>, p: Parsed)
    requires ResponseReady(recs, orders, entries, start)
    requires InHeaders(names, ResponseHeaders(recs, orders, entries, start))
    requires FromName(p, names, ResponseHeaders(recs, orders, entries, start))
    ensures HasRec(p, recs, orders, entries, start)
  {
    hide IsBatched, ResponseHeaders, TableAt, AllBytes, ValidRun, ForwardPerEntry, ValueAt, HeaderName, ParseHeaderName, Position, Unique;
    var name := HeaderName(p.idx, p.delta);
    BatchedIsRecord(recs, orders, entries, start, name);
    var i :| 0 <= i < |recs| && name == NameAt(recs, entries, start, i);
    HeaderNameRoundTrip(EntryIndex(entries, recs[i].entry), recs[i].ts - start);
    HoldsAt(recs, orders, entries, start, i);
    assert IsRec(p, i, recs, orders, entries, start);
  }

  lemma RecFromName(recs: seq<Rec>, orders: seq<Orders>, entries: seq<string>, start: nat, names: seq<string>, i: nat)
    returns (p: Parsed)
    requires ResponseReady(recs, orders, entries, start) && i < |recs|
    requires Enumerates(names, ResponseHeaders(recs, orders, entries, start).Keys)
    requires InHeaders(names, ResponseHeaders(recs, orders, entries, start))
    ensures IsRec(p, i, recs, orders, entries, start)
    ensures FromName(p, names, ResponseHeaders(recs, orders, entries, start))
  {
    hide IsBatched, ResponseHeaders, TableAt, AllBytes, ValidRun, ForwardPerEntry, ValueAt, HeaderName, ParseHeaderName, Position, Unique;
    p := Parsed(EntryIndex(entries, recs[i].entry), recs[i].ts - start, ValueAt(recs, orders, i));
    HoldsAt(recs, orders, entries, start, i);
    HeaderNameRoundTrip(p.idx, p.delta);
  }

  /** The fixed headers parse back to the entries, the start time and the final label table. */
  lemma FixedParse(recs: seq<Rec>, orders: seq<Orders>, entries: seq<string>, start: nat)
    requires ResponseReady(recs, orders, entries, start) && start <= U64_MAX
    requires entries != [] && NoneEmpty(entries) && NoPercent(entries)
    requires NoPercent(TableAt(recs, orders, |recs|)) && !JustEmptyName(TableAt(recs, orders, |recs|))
    ensures var h := ResponseHeaders(recs, orders, entries, start);
            && ParseEntries(h) == Ok(entries) && ParseStart(h) == Ok(start)
            && ParseLabels(h) == Ok(FinalTable(recs, orders))
  {
    hide ResponseHeaders, TableAt, AllBytes, ValidRun, ForwardPerEntry, Frames, SmallNumbers, NoPercent, NoneEmpty,
         MakeNamesHeader, ParseLabels, FinalTable, ParseEntries, ParseStart, Render, JustEmptyName, NamesRecord, HoldsRecord,
         FixedHeaders;
    var h := ResponseHeaders(recs, orders, entries, start);
    ResponseMembers(recs, orders, entries, start);
    var fixed := FixedHeaders(TableAt(recs, orders, |recs|), entries, start);
    FixedHold(TableAt(recs, orders, |recs|), entries, start);
    assert h[ENTRIES_HEADER] == fixed[ENTRIES_HEADER] && h[START_TS_HEADER] == fixed[START_TS_HEADER];
    FixedStart(h, entries, start);
    FixedLabels(recs, orders, entries, start);
  }

  lemma FixedHold(table: seq<string>, entries: seq<string>, start: nat)
    requires AllBytes(entries) && AllBytes(table)
    ensures var fixed := FixedHeaders(table, entries, start);
            && ENTRIES_HEADER in fixed && fixed[ENTRIES_HEADER] == MakeNamesHeader(entries)
            && START_TS_HEADER in fixed && fixed[START_TS_HEADER] == Render(start)
  {
    hide MakeNamesHeader, Render, AllBytes, IsBatched;
    FixedNamesNotBatched();
  }

  lemma FixedStart(h: HeaderMap, entries: seq<string>, start: nat)
    requires AllBytes(entries) && entries != [] && NoneEmpty(entries) && NoPercent(entries) && start <= U64_MAX
    requires ENTRIES_HEADER in h && h[ENTRIES_HEADER] == MakeNamesHeader(entries)
    requires START_TS_HEADER in h && h[START_TS_HEADER] == Render(start)
    ensures ParseEntries(h) == Ok(entries) && ParseStart(h) == Ok(start)
  {
    hide AllBytes, NoPercent, NoneEmpty, MakeNamesHeader, ParseEntriesHeader, Render, ParseU64, IsHeaderText;
    EntriesHeaderRoundTripIff(entries);
    ParseOfRender(start);
    DigitsAreText(Render(start));
  }

  lemma FixedLabels(recs: seq<Rec>, orders: seq<Orders>, entries: seq<string>, start: nat)
    requires ResponseReady(recs, orders, entries, start)
    requires NoPercent(TableAt(recs, orders, |recs|)) && !JustEmptyName(TableAt(recs, orders, |recs|))
    ensures ParseLabels(ResponseHeaders(recs, orders, entries, start)) == Ok(FinalTable(recs, orders))
  {
    hide ResponseHeaders, TableAt, AllBytes, ValidRun, ForwardPerEntry, Frames, SmallNumbers, NoPercent, NoneEmpty,
         MakeNamesHeader, ParseEntriesHeader, ParseLabelsHeader, Render, ParseU64, JustEmptyName, NamesRecord, HoldsRecord;
    var h := ResponseHeaders(recs, orders, entries, start);
    var table := TableAt(recs, orders, |recs|);
    ResponseMembers(recs, orders, entries, start);
    FixedNamesNotBatched();
    if table == [] {
      if LABELS_HEADER in h {
        LabelsIsNotRecord(recs, orders, entries, start);
      }
    } else {
      LabelsHeaderRoundTripIff(table);
      assert h[LABELS_HEADER] == FixedHeaders(table, entries, start)[LABELS_HEADER];
    }
  }

  lemma LabelsIsNotRecord(recs: seq<Rec>, orders: seq<Orders>, entries: seq<string>, start: nat)
    requires ResponseReady(recs, orders, entries, start)
    ensures !NamesRecord(LABELS_HEADER, recs, entries, start)
  {
    hide IsBatched, NamesRecord, TableAt, AllBytes, ValidRun, ForwardPerEntry, SmallNumbers, Frames;
    FixedNamesNotBatched();
    if NamesRecord(LABELS_HEADER, recs, entries, start) {
      RecordNamesBatched(recs, orders, entries, start, LABELS_HEADER);
    }
  }

  ghost predicate BatchSurvives(recs: seq<Rec>, orders: seq<Orders>, entries: seq<string>, start: nat) {
    && recs != [] && Decodable(recs, orders, entries, start)
    && NoneEmpty(entries) && NoPercent(entries)
    && NoPercent(TableAt(recs, orders, |recs|)) && !JustEmptyName(TableAt(recs, orders, |recs|))
  }

  /** A label name that survives in the label table. */
  predicate CleanName(k: string) {
    k != "" && IsBytes(k) && '%' !in k
  }

  ghost predicate CleanLabels(meta: Meta) {
    && (forall k :: k in meta.labels ==> CleanName(k))
    && (forall k :: k in meta.computed ==> CleanName("@" + k))
  }

  ghost predicate CleanNames(names: seq<string>) {
    forall i :: 0 <= i < |names| ==> CleanName(names[i])
  }

  /** A label, or a computed label with its mark, of one of the first `n` records. */
  ghost predicate LabelOfRecords(recs: seq<Rec>, n: nat, name: string)
    requires n <= |recs|
  {
    exists k :: 0 <= k < n && (name in recs[k].meta.labels || name in AtLabels(recs[k].meta.computed))
  }

  lemma {:induction false} RegisterNames(ops: seq<Op>, names: seq<string>, name: string)
    requires name in Register(ops, names)
    ensures name in names || exists op :: op in ops && op.key == name
    decreases |ops|
  {
    if ops != [] {
      assert ops[0] in ops;
      RegisterNames(ops[1..], EnsureNames(names, ops[0].key), name);
    }
  }

  lemma RecordOpNamed(meta: Meta, previous: Option<Meta>, o: Orders, op: Op)
    requires ValidOrders(o, meta, previous) && op in RecordOps(meta, previous, o)
    ensures op.key in meta.labels || op.key in AtLabels(meta.computed) || (previous.Some? && op.key in previous.value.labels)
  {
    hide LabelOps, ComputedOps, AtLabels;
    LabelOpsMembers(o.labels, PreviousLabels(previous), meta.labels);
    var plain, computed := LabelOps(o.labels, PreviousLabels(previous), meta.labels), ComputedOps(o.computed, meta.computed);
    assert op in plain || op in computed;
    if op in plain { assert op.key in o.labels; } else { ComputedOpMarked(o, meta, op); }
  }

  lemma OpNamesLabel(recs: seq<Rec>, orders: seq<Orders>, i: nat, op: Op)
    requires ValidRun(recs, orders) && i < |recs| && op in RecordOps(recs[i].meta, Previous(recs, i), orders[i])
    ensures LabelOfRecords(recs, i + 1, op.key)
  {
    hide RecordOps, ValidOrders, AtLabels;
    RecordOpNamed(recs[i].meta, Previous(recs, i), orders[i], op);
    var p := LastBefore(recs, i, recs[i].entry);
    assert op.key in recs[i].meta.labels || op.key in AtLabels(recs[i].meta.computed) || (0 <= p && op.key in recs[p].meta.labels);
  }

  lemma LabelStays(recs: seq<Rec>, i: nat, name: string)
    requires i < |recs| && LabelOfRecords(recs, i, name)
    ensures LabelOfRecords(recs, i + 1, name)
  {
    hide AtLabels;
    var k :| 0 <= k < i && (name in recs[k].meta.labels || name in AtLabels(recs[k].meta.computed));
  }

  /** The label table holds only the names of labels and computed labels of the records so far. */
  lemma {:induction false} TableNames(recs: seq<Rec>, orders: seq<Orders>, i: nat, name: string)
    requires ValidRun(recs, orders) && i <= |recs| && name in TableAt(recs, orders, i)
    ensures LabelOfRecords(recs, i, name)
    decreases i
  {
    hide RecordOps, ValidOrders, Register, Unique, LabelOfRecords, TableAt, Previous;
    NoTable(recs, orders);
    var last := i - 1;
    var ops := RecordOps(recs[last].meta, Previous(recs, last), orders[last]);
    TableStep(recs, orders, last);
    RegisterNames(ops, TableAt(recs, orders, last), name);
    if name in TableAt(recs, orders, last) {
      TableNames(recs, orders, last, name);
      LabelStays(recs, last, name);
    } else {
      var op :| op in ops && op.key == name;
      OpNamesLabel(recs, orders, last, op);
    }
  }

  lemma NoTable(recs: seq<Rec>, orders: seq<Orders>)
    requires ValidRun(recs, orders)
    ensures TableAt(recs, orders, 0) == []
  {
  }

  lemma TableClean(recs: seq<Rec>, orders: seq<Orders>, i: nat)
    requires ValidRun(recs, orders) && i <= |recs|
    requires forall k :: 0 <= k < |recs| ==> CleanLabels(recs[k].meta)
    ensures CleanNames(TableAt(recs, orders, i))
  {
    hide CleanName, TableAt, ValidRun;
    var table := TableAt(recs, orders, i);
    forall j | 0 <= j < |table|
      ensures CleanName(table[j])
    {
      TableNames(recs, orders, i, table[j]);
      var k :| 0 <= k < i && (table[j] in recs[k].meta.labels || table[j] in AtLabels(recs[k].meta.computed));
      assert CleanLabels(recs[k].meta);
    }
  }

  /** A condition on the records alone under which their batch comes back. */
  lemma CleanBatchSurvives(recs: seq<Rec>, orders: seq<Orders>, entries: seq<string>, start: nat)
    requires recs != [] && ValidRun(recs, orders) && Frames(recs, entries, start)
    requires CleanNames(entries) && SmallNumbers(recs, entries) && ForwardPerEntry(recs) && AllSurvive(recs)
    requires forall k :: 0 <= k < |recs| ==> CleanLabels(recs[k].meta)
    requires |TableAt(recs, orders, |recs|)| <= U64_MAX
    ensures BatchSurvives(recs, orders, entries, start)
  {
    hide ValidRun, TableAt, Frames, SmallNumbers, ForwardPerEntry, AllSurvive, CleanLabels;
    TableClean(recs, orders, |recs|);
  }

  /** For one, every record without labels whose content type survives. */
  lemma UnlabelledSurvives(rec: Rec, start: nat)
    requires rec.meta.labels == map[] && rec.meta.computed == map[] && MetaSurvives(rec.meta)
    requires CleanName(rec.entry) && start <= rec.ts <= U64_MAX
    ensures BatchSurvives([rec], [Orders([], [])], [rec.entry], start)
  {
    hide MetaSurvives, CleanName;
    var recs, orders := [rec], [Orders([], [])];
    assert ValidRun(recs, orders) by {
      assert Previous(recs, 0) == None;
    }
    assert TableAt(recs, orders, 1) == [] by {
      assert RecordOps(rec.meta, None, orders[0]) == [];
      assert TableAt(recs, orders, 0) == [];
    }
    CleanBatchSurvives(recs, orders, [rec.entry], start);
  }

  // ----- computed labels -----

  /** The marked labels that the decoder has are those of all records of the entry so far. */
  lemma {:induction false} ComputedKeys(recs: seq<Rec>, i: nat, key: string)
    requires i < |recs|
    ensures key in ComputedUpTo(recs, i) <==> ComputedSoFar(recs, i, key)
    decreases i
  {
    hide AtLabels;
    var p := LastBefore(recs, i, recs[i].entry);
    if p >= 0 { ComputedKeys(recs, p, key); }
    if ComputedSoFar(recs, i, key) {
      var k :| 0 <= k <= i && recs[k].entry == recs[i].entry && key in AtLabels(recs[k].meta.computed);
      assert k == i || k <= p;
    }
    if p >= 0 && ComputedSoFar(recs, p, key) {
      var k :| 0 <= k <= p && recs[k].entry == recs[p].entry && key in AtLabels(recs[k].meta.computed);
      assert recs[k].entry == recs[i].entry;
    }
  }

  ghost predicate ComputedSoFar(recs: seq<Rec>, i: nat, key: string)
    requires i < |recs|
  {
    exists k :: 0 <= k <= i && recs[k].entry == recs[i].entry && key in AtLabels(recs[k].meta.computed)
  }

  /**
    The decoder reports exactly the computed labels of a record if and only if it has every
    computed label that an earlier record of its entry had: no delta ever removes one.
  */
  lemma ComputedExactIff(recs: seq<Rec>, i: nat)
    requires i < |recs|
    ensures ComputedUpTo(recs, i) == AtLabels(recs[i].meta.computed)
            <==> forall k :: 0 <= k < i && recs[k].entry == recs[i].entry ==> recs[k].meta.computed.Keys <= recs[i].meta.computed.Keys
  {
    hide ComputedUpTo, AtLabels;
    var all, own := ComputedUpTo(recs, i), AtLabels(recs[i].meta.computed);
    OwnComputed(recs, i);
    forall key
      ensures key in all <==> ComputedSoFar(recs, i, key)
    {
      ComputedKeys(recs, i, key);
    }
    if all == own {
      forall k, c | 0 <= k < i && recs[k].entry == recs[i].entry && c in recs[k].meta.computed
        ensures c in recs[i].meta.computed
      {
        AtLabelsKey(recs[k].meta.computed, c);
        AtLabelsKey(recs[i].meta.computed, c);
        assert ComputedSoFar(recs, i, "@" + c);
      }
    }
    if forall k :: 0 <= k < i && recs[k].entry == recs[i].entry ==> recs[k].meta.computed.Keys <= recs[i].meta.computed.Keys {
      forall key | key in all
        ensures key in own
      {
        var k :| 0 <= k <= i && recs[k].entry == recs[i].entry && key in AtLabels(recs[k].meta.computed);
        AtLabelsSubset(recs[k].meta.computed, recs[i].meta.computed, key);
      }
      assert all.Keys == own.Keys;
    }
  }

  lemma OwnComputed(recs: seq<Rec>, i: nat)
    requires i < |recs|
    ensures var all, own := ComputedUpTo(recs, i), AtLabels(recs[i].meta.computed);
            forall key :: key in own ==> key in all && all[key] == own[key]
  {
    hide AtLabels;
  }

  lemma AtLabelsKey(computed: Labels, c: string)
    ensures "@" + c in AtLabels(computed) <==> c in computed
  {
    assert ("@" + c)[1..] == c;
  }

  lemma AtLabelsSubset(a: Labels, b: Labels, key: string)
    requires key in AtLabels(a) && a.Keys <= b.Keys
    ensures key in AtLabels(b)
  {
    var c :| c in a && key == "@" + c;
    assert c in b;
  }

  ghost predicate FromRecord(item: EntryRecordHeader, recs: seq<Rec>) {
    exists i :: 0 <= i < |recs| && Recovers(item, recs, i)
  }

  ghost predicate RecoveredBy(items: seq<EntryRecordHeader>, recs: seq<Rec>, i: nat)
    requires i < |recs|
  {
    exists j :: 0 <= j < |items| && Recovers(items[j], recs, i)
  }

  /**
    The whole-batch round trip. Encode records of any number of entries, each against the
    previous record of its entry and a label table that keeps growing; put everything in a
    header map; parse that map in any iteration order with the final table. Every record
    comes back with its length, type and labels and with the computed labels of its entry so
    far, nothing else does, and the result is ordered by entry and time.
  */
  lemma BatchRoundTrip(recs: seq<Rec>, orders: seq<Orders>, entries: seq<string>, start: nat, names: seq<string>)
    requires BatchSurvives(recs, orders, entries, start)
    requires Enumerates(names, ResponseHeaders(recs, orders, entries, start).Keys)
    ensures var h := ResponseHeaders(recs, orders, entries, start);
            InHeaders(names, h) &&
            var r := ParseBatch(h, names);
            && r.Ok?
            && (forall j :: 0 <= j < |r.value| ==> FromRecord(r.value[j], recs))
            && (forall i :: 0 <= i < |recs| ==> RecoveredBy(r.value, recs, i))
            && (forall j, k :: 0 <= j < k < |r.value| ==> ItemBefore(r.value[j], r.value[k], entries))
  {
    hide ResponseHeaders, TableAt, AllBytes, ValidRun, ForwardPerEntry, Frames, SmallNumbers, NoPercent, NoneEmpty,
         ParseEntries, ParseStart, ParseLabels, SortHeaders, DecodeFrom, Unique, AllSurvive, JustEmptyName, FinalTable,
         Lists, ItemRecovers, Recovers;
    var h := ResponseHeaders(recs, orders, entries, start);
    StartSmall(recs, orders, entries, start);
    FixedParse(recs, orders, entries, start);
    ResponseLists(recs, orders, entries, start, names);
    var sorted := SortHeaders(names, h).value;
    DecodeLists(sorted, recs, orders, entries, start, 0, map[], 0);
    assert sorted[0..] == sorted;
    var items := DecodeFrom(sorted, entries, start, FinalTable(recs, orders), map[]).value;
    assert ParseBatch(h, names) == Ok(items);
    ItemsComplete(items, sorted, recs, orders, entries, start);
  }

  ghost predicate ItemBefore(a: EntryRecordHeader, b: EntryRecordHeader, entries: seq<string>) {
    var i, j := EntryIndex(entries, a.entry), EntryIndex(entries, b.entry);
    i < j || (i == j && a.timestamp < b.timestamp)
  }

  lemma StartSmall(recs: seq<Rec>, orders: seq<Orders>, entries: seq<string>, start: nat)
    requires BatchSurvives(recs, orders, entries, start)
    ensures start <= U64_MAX && entries != []
  {
    hide TableAt, AllBytes, ValidRun, ForwardPerEntry, NoPercent, NoneEmpty, AllSurvive, JustEmptyName;
    assert recs[0].entry in entries && start <= recs[0].ts <= U64_MAX;
  }

  lemma ItemsComplete(items: seq<EntryRecordHeader>, sorted: seq<Parsed>, recs: seq<Rec>, orders: seq<Orders>,
                      entries: seq<string>, start: nat)
    requires ValidRun(recs, orders) && Frames(recs, entries, start) && ForwardPerEntry(recs)
    requires Lists(sorted, recs, orders, entries, start) && |items| == |sorted|
    requires forall k :: 0 <= k < |items| ==> ItemRecovers(items[k], sorted[k], recs, orders, entries, start)
    ensures forall j :: 0 <= j < |items| ==> FromRecord(items[j], recs)
    ensures forall i :: 0 <= i < |recs| ==> RecoveredBy(items, recs, i)
    ensures forall j, k :: 0 <= j < k < |items| ==> ItemBefore(items[j], items[k], entries)
  {
    hide ValidRun, IsRec, Recovers, ForwardPerEntry, Frames, ItemBefore, StrictlyBefore, RecoveredBy;
    forall i | 0 <= i < |recs|
      ensures RecoveredBy(items, recs, i)
    {
      assert IsListed(sorted, i, recs, orders, entries, start);
      var j :| 0 <= j < |sorted| && IsRec(sorted[j], i, recs, orders, entries, start);
      RecoveredAt(items, sorted[j], j, i, recs, orders, entries, start);
    }
    forall j, k | 0 <= j < k < |items|
      ensures ItemBefore(items[j], items[k], entries)
    {
      ItemOrder(items[j], items[k], sorted[j], sorted[k], recs, orders, entries, start);
    }
  }

  lemma RecoveredAt(items: seq<EntryRecordHeader>, p: Parsed, j: nat, i: nat, recs: seq<Rec>, orders: seq<Orders>,
                    entries: seq<string>, start: nat)
    requires ValidRun(recs, orders) && Frames(recs, entries, start) && ForwardPerEntry(recs)
    requires IsRec(p, i, recs, orders, entries, start) && i < |recs| && j < |items|
    requires ItemRecovers(items[j], p, recs, orders, entries, start)
    ensures RecoveredBy(items, recs, i)
  {
    hide ValidRun, IsRec, Recovers, ForwardPerEntry, Frames;
    var i' :| 0 <= i' < |recs| && IsRec(p, i', recs, orders, entries, start) && Recovers(items[j], recs, i');
    SameRec(p, i, i', recs, orders, entries, start);
  }

  lemma ItemOrder(a: EntryRecordHeader, b: EntryRecordHeader, p: Parsed, q: Parsed, recs: seq<Rec>, orders: seq<Orders>,
                  entries: seq<string>, start: nat)
    requires ValidRun(recs, orders) && Frames(recs, entries, start)
    requires ItemRecovers(a, p, recs, orders, entries, start) && ItemRecovers(b, q, recs, orders, entries, start)
    requires StrictlyBefore(p, q)
    ensures ItemBefore(a, b, entries)
  {
    hide ValidRun, ValueAt, Position, CarriesAt;
  }

  lemma SameRec(p: Parsed, i: nat, j: nat, recs: seq<Rec>, orders: seq<Orders>, entries: seq<string>, start: nat)
    requires ValidRun(recs, orders) && Frames(recs, entries, start) && ForwardPerEntry(recs)
    requires IsRec(p, i, recs, orders, entries, start) && IsRec(p, j, recs, orders, entries, start)
    ensures i == j
  {
    hide ValidRun, ValueAt, Position;
    assert recs[i].entry == recs[j].entry;
  }
}
