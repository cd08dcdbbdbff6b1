/**
  What the decoders and the encoder of a batch come to, without their loops: the header names and
  the forms of a header that are accepted, the records of a whole batch, and what is left out of a
  header value because the previous record provides it.
*/
module BatchMeaning {
  import opened Common
  import opened Text
  import opened Sorting
  import opened LabelDelta
  import opened RecordHeaders
  import opened Batch
  import V1 = BatchV1

  // ----- header names -----

  lemma {:induction false} DenotedDigits(s: string, n: nat)
    requires Denotes(s, n)
    ensures '-' !in s
  {
    hide Render;
    var zeros: nat :| s == Zeros(zeros) + Render(n) || s == "+" + (Zeros(zeros) + Render(n));
    NoDashInNumber(n);
  }

  /** The names that are read are the prefix, the index, a dash and the offset, both written in any way. */
  lemma HeaderNameIff(name: string, idx: nat, delta: nat)
    ensures ParseHeaderName(name) == Ok((idx, delta))
            <==> idx <= U64_MAX && delta <= U64_MAX
                 && exists a, b :: name == HEADER_PREFIX + (a + ['-'] + b) && Denotes(a, idx) && Denotes(b, delta)
  {
    hide ParseU64, Denotes, RSplitOnce;
    if ParseHeaderName(name) == Ok((idx, delta)) {
      var rest := name[|HEADER_PREFIX|..];
      var (a, b) := RSplitOnce(rest, '-').value;
      ParseU64Iff(a, idx);
      ParseU64Iff(b, delta);
      assert name == HEADER_PREFIX + rest;
    }
    if idx <= U64_MAX && delta <= U64_MAX {
      forall a, b | name == HEADER_PREFIX + (a + ['-'] + b) && Denotes(a, idx) && Denotes(b, delta)
        ensures ParseHeaderName(name) == Ok((idx, delta))
      {
        assert name[..|HEADER_PREFIX|] == HEADER_PREFIX && name[|HEADER_PREFIX|..] == a + ['-'] + b;
        DenotedDigits(b, delta);
        RSplitOnceAt(a, '-', b);
        ParseU64Iff(a, idx);
        ParseU64Iff(b, delta);
      }
    }
  }

  lemma NoDashInDigits(s: string)
    requires AllDigits(s)
    ensures '-' !in s
  {
    assert forall i :: 0 <= i < |s| ==> IsDigit(s[i]);
  }

  /** The headers of a batch are those with the prefix that have nothing but digits behind their last dash. */
  lemma IsBatchedIff(name: string)
    ensures IsBatched(name) <==> StartsWith(name, HEADER_PREFIX) && exists a, b :: name == a + ['-'] + b && AllDigits(b)
  {
    hide RSplitOnce, StartsWith;
    forall a, b | name == a + ['-'] + b && AllDigits(b)
      ensures RSplitOnce(name, '-') == Some((a, b))
    {
      NoDashInDigits(b);
      RSplitOnceAt(a, '-', b);
    }
  }

  function BatchedNames(names: seq<string>): seq<string> {
    if names == [] then [] else (if IsBatched(names[0]) then [names[0]] else []) + BatchedNames(names[1..])
  }

  /** The collected headers are those of the batched names, one by one. */
  ghost predicate AreCollected(batched: seq<string>, headers: HeaderMap, ps: seq<Parsed>) {
    |ps| == |batched| && forall i :: 0 <= i < |ps| ==> IsCollected(batched[i], headers, ps[i])
  }

  ghost predicate IsCollected(name: string, headers: HeaderMap, p: Parsed) {
    name in headers && ParseHeaderName(name) == Ok((p.idx, p.delta)) && p.value == headers[name]
  }

  lemma {:induction false} CollectIff(names: seq<string>, headers: HeaderMap, ps: seq<Parsed>)
    requires InHeaders(names, headers)
    ensures CollectHeaders(names, headers) == Ok(ps) <==> AreCollected(BatchedNames(names), headers, ps)
    decreases |names|
  {
    hide IsBatched, ParseHeaderName, IsCollected;
    if names != [] {
      if !IsBatched(names[0]) {
        CollectIff(names[1..], headers, ps);
        assert [] + BatchedNames(names[1..]) == BatchedNames(names[1..]);
      } else if ps != [] {
        CollectIff(names[1..], headers, ps[1..]);
        CollectFirst(names, headers, ps);
        CollectedNext(names[0], BatchedNames(names[1..]), headers, ps);
      }
    }
  }

  lemma CollectFirst(names: seq<string>, headers: HeaderMap, ps: seq<Parsed>)
    requires InHeaders(names, headers) && names != [] && IsBatched(names[0]) && ps != []
    ensures CollectHeaders(names, headers) == Ok(ps)
            <==> IsCollected(names[0], headers, ps[0]) && CollectHeaders(names[1..], headers) == Ok(ps[1..])
  {
    hide IsBatched, ParseHeaderName;
    assert ps == [ps[0]] + ps[1..];
  }

  lemma CollectedNext(name: string, batched: seq<string>, headers: HeaderMap, ps: seq<Parsed>)
    requires ps != []
    ensures AreCollected([name] + batched, headers, ps) <==> IsCollected(name, headers, ps[0]) && AreCollected(batched, headers, ps[1..])
  {
    hide IsCollected;
    var all := [name] + batched;
    if AreCollected(all, headers, ps) {
      assert IsCollected(all[0], headers, ps[0]);
      forall i | 0 <= i < |ps[1..]|
        ensures IsCollected(batched[i], headers, ps[1..][i])
      {
        assert IsCollected(all[i + 1], headers, ps[i + 1]);
      }
    } else if IsCollected(name, headers, ps[0]) && AreCollected(batched, headers, ps[1..]) {
      forall i | 0 <= i < |ps|
        ensures IsCollected(all[i], headers, ps[i])
      {
        if i > 0 { assert IsCollected(batched[i - 1], headers, ps[1..][i - 1]); }
      }
      assert false;
    }
  }

  /** The headers are listed in order of entry and time, and nothing is lost or added by that. */
  lemma ListIs(names: seq<string>, headers: HeaderMap)
    requires InHeaders(names, headers)
    ensures SortHeaders(names, headers).Ok? <==> exists ps :: AreCollected(BatchedNames(names), headers, ps)
    ensures forall ps :: AreCollected(BatchedNames(names), headers, ps) ==>
              var r := SortHeaders(names, headers);
              r.Ok? && multiset(r.value) == multiset(ps)
              && forall i, j :: 0 <= i < j < |r.value| ==>
                   r.value[i].idx < r.value[j].idx || (r.value[i].idx == r.value[j].idx && r.value[i].delta <= r.value[j].delta)
  {
    hide CollectHeaders, AreCollected, BatchedNames;
    if CollectHeaders(names, headers).Ok? {
      var ps := CollectHeaders(names, headers).value;
      CollectIff(names, headers, ps);
    }
    forall ps | AreCollected(BatchedNames(names), headers, ps)
      ensures CollectHeaders(names, headers) == Ok(ps) && Sorted(Sort(ps, ByEntryAndTime), ByEntryAndTime)
    {
      CollectIff(names, headers, ps);
      ByEntryAndTimeTotal();
      SortSorts(ps, ByEntryAndTime);
    }
  }

  // ----- the forms of a header -----

  /** A header of a length alone repeats the previous record, and one without labels repeats its labels. */
  lemma ShortHeaders(length: string, contentType: string, previous: Option<RecordHeader>, names: Option<seq<string>>)
    requires ',' !in length && ',' !in contentType
    ensures var n := ParseU64(Trim(length));
            var named := Trim(contentType);
            var labels := if previous.Some? then previous.value.labels else map[];
            var inherited := if previous.Some? then previous.value.contentType else "application/octet-stream";
            && ParseRecordHeader(length, previous, names)
               == (if n.None? then Err("Invalid batched header")
                   else if previous.None? then Err("Content-type and labels must be provided for the first record of an entry")
                   else Ok(previous.value.(contentLength := n.value)))
            && ParseRecordHeader(length + [','] + contentType, previous, names)
               == (if n.None? then Err("Invalid batched header")
                   else Ok(RecordHeader(n.value, if named != "" then named else inherited, labels)))
  {
    hide Trim, SplitOnce, ParseU64;
    SplitOnceAt(length, ',', contentType);
  }

  /** Version 1 needs a content type; without labels there are none. */
  lemma ShortHeadersV1(length: string, contentType: string)
    requires ',' !in length && ',' !in contentType
    ensures V1.ParseHeader(length) == Err("Invalid batched header")
    ensures var n := ParseU64(Trim(length));
            V1.ParseHeader(length + [','] + contentType)
            == if n.None? then Err("Invalid content length")
               else Ok(RecordHeader(n.value, if contentType == "" then "application/octet-stream" else Trim(contentType), map[]))
  {
    hide Trim, SplitOnce, ParseU64, V1.LabelsFrom;
    SplitOnceAt(length, ',', contentType);
    V1.DefaultHasNoLabels();
  }

  // ----- whole batches -----

  /** The last header that was decoded for an entry. */
  function LastOf(hs: seq<EntryRecordHeader>, entry: string): Option<RecordHeader> {
    if hs == [] then None
    else if hs[|hs| - 1].entry == entry then Some(hs[|hs| - 1].header)
    else LastOf(hs[..|hs| - 1], entry)
  }

  /** A record of the batch, after those before it: its entry, its time and the header read with the entry's last one. */
  ghost predicate IsDecoded(p: Parsed, entries: seq<string>, start: nat, table: Option<seq<string>>,
                            before: seq<EntryRecordHeader>, h: EntryRecordHeader)
  {
    && p.idx < |entries| && IsHeaderText(p.value)
    && h.entry == entries[p.idx] && h.timestamp == (start + p.delta) % 0x1_0000_0000_0000_0000
    && ParseRecordHeader(p.value, LastOf(before, h.entry), table) == Ok(h.header)
  }

  ghost predicate AreDecoded(sorted: seq<Parsed>, entries: seq<string>, start: nat, table: Option<seq<string>>,
                             before: seq<EntryRecordHeader>, hs: seq<EntryRecordHeader>)
  {
    |hs| == |sorted| && forall i :: 0 <= i < |hs| ==> IsDecoded(sorted[i], entries, start, table, before + hs[..i], hs[i])
  }

  lemma AreDecodedNext(sorted: seq<Parsed>, entries: seq<string>, start: nat, table: Option<seq<string>>,
                       before: seq<EntryRecordHeader>, hs: seq<EntryRecordHeader>)
    requires |hs| == |sorted| && sorted != []
    ensures AreDecoded(sorted, entries, start, table, before, hs)
            <==> IsDecoded(sorted[0], entries, start, table, before, hs[0])
                 && AreDecoded(sorted[1..], entries, start, table, before + [hs[0]], hs[1..])
  {
    hide IsDecoded;
    assert before + hs[..0] == before;
    forall i | 0 <= i < |hs| - 1
      ensures sorted[1..][i] == sorted[i + 1] && hs[1..][i] == hs[i + 1] && (before + [hs[0]]) + hs[1..][..i] == before + hs[..i + 1]
    {
    }
    if AreDecoded(sorted, entries, start, table, before, hs) {
      assert IsDecoded(sorted[0], entries, start, table, before + hs[..0], hs[0]);
    }
    if IsDecoded(sorted[0], entries, start, table, before, hs[0]) && AreDecoded(sorted[1..], entries, start, table, before + [hs[0]], hs[1..]) {
      forall i | 0 <= i < |hs|
        ensures IsDecoded(sorted[i], entries, start, table, before + hs[..i], hs[i])
      {
        if i > 0 { assert IsDecoded(sorted[1..][i - 1], entries, start, table, (before + [hs[0]]) + hs[1..][..i - 1], hs[1..][i - 1]); }
      }
    }
  }

  ghost predicate Remembers(last: map<string, RecordHeader>, before: seq<EntryRecordHeader>) {
    forall e :: Lookup(last, e) == LastOf(before, e)
  }

  lemma RemembersNext(last: map<string, RecordHeader>, before: seq<EntryRecordHeader>, h: EntryRecordHeader)
    requires Remembers(last, before)
    ensures Remembers(last[h.entry := h.header], before + [h])
  {
    assert (before + [h])[..|before|] == before;
    forall e
      ensures Lookup(last[h.entry := h.header], e) == LastOf(before + [h], e)
    {
      assert Lookup(last, e) == LastOf(before, e);
    }
  }

  lemma DecodeFirst(sorted: seq<Parsed>, entries: seq<string>, start: nat, table: Option<seq<string>>,
                    last: map<string, RecordHeader>, before: seq<EntryRecordHeader>, hs: seq<EntryRecordHeader>)
    requires sorted != [] && hs != [] && Remembers(last, before)
    ensures DecodeFrom(sorted, entries, start, table, last) == Ok(hs)
            <==> IsDecoded(sorted[0], entries, start, table, before, hs[0])
                 && DecodeFrom(sorted[1..], entries, start, table, last[hs[0].entry := hs[0].header]) == Ok(hs[1..])
  {
    hide ParseRecordHeader, IsHeaderText, LastOf;
    var p := sorted[0];
    if p.idx < |entries| {
      assert Lookup(last, entries[p.idx]) == LastOf(before, entries[p.idx]);
      assert hs == [hs[0]] + hs[1..];
    }
  }

  lemma {:induction false} DecodeFromIff(sorted: seq<Parsed>, entries: seq<string>, start: nat, table: Option<seq<string>>,
                                         last: map<string, RecordHeader>, before: seq<EntryRecordHeader>, hs: seq<EntryRecordHeader>)
    requires Remembers(last, before)
    ensures DecodeFrom(sorted, entries, start, table, last) == Ok(hs) <==> AreDecoded(sorted, entries, start, table, before, hs)
    decreases |sorted|
  {
    hide IsDecoded, Remembers;
    if sorted == [] || hs == [] {
      DecodeNone(sorted, entries, start, table, last, before, hs);
    } else {
      hide DecodeFrom;
      DecodeFirst(sorted, entries, start, table, last, before, hs);
      RemembersNext(last, before, hs[0]);
      DecodeFromIff(sorted[1..], entries, start, table, last[hs[0].entry := hs[0].header], before + [hs[0]], hs[1..]);
      if |hs| == |sorted| { AreDecodedNext(sorted, entries, start, table, before, hs); }
    }
  }

  lemma DecodeNone(sorted: seq<Parsed>, entries: seq<string>, start: nat, table: Option<seq<string>>,
                   last: map<string, RecordHeader>, before: seq<EntryRecordHeader>, hs: seq<EntryRecordHeader>)
    requires sorted == [] || hs == []
    ensures DecodeFrom(sorted, entries, start, table, last) == Ok(hs) <==> AreDecoded(sorted, entries, start, table, before, hs)
  {
    hide ParseRecordHeader, IsHeaderText, IsDecoded;
  }

  /**
    A batch is decoded to a list of records if and only if its fixed headers can be read, its other
    headers are the records in order of entry and time, and each record is what its header says after
    the last record of its entry.
  */
  lemma BatchIff(headers: HeaderMap, names: seq<string>, hs: seq<EntryRecordHeader>)
    requires InHeaders(names, headers)
    ensures ParseBatch(headers, names) == Ok(hs) <==>
            && ParseEntries(headers).Ok? && ParseStart(headers).Ok? && ParseLabels(headers).Ok? && SortHeaders(names, headers).Ok?
            && AreDecoded(SortHeaders(names, headers).value, ParseEntries(headers).value, ParseStart(headers).value, ParseLabels(headers).value, [], hs)
  {
    hide ParseEntries, ParseStart, ParseLabels, SortHeaders, DecodeFrom, AreDecoded;
    NothingRemembered();
    if ParseEntries(headers).Ok? && ParseStart(headers).Ok? && ParseLabels(headers).Ok? && SortHeaders(names, headers).Ok? {
      DecodeFromIff(SortHeaders(names, headers).value, ParseEntries(headers).value, ParseStart(headers).value,
                    ParseLabels(headers).value, map[], [], hs);
    }
  }

  lemma NothingRemembered()
    ensures Remembers(map[], [])
  {
  }

  // ----- what is left out of a header value -----

  /** A label is sent if and only if it is new or has changed, and removed if and only if it is gone. */
  lemma {:induction false} SentIff(order: seq<string>, prev: Option<Labels>, cur: Labels, op: Op)
    ensures op in LabelOps(order, prev, cur) <==>
            op.key in order && match op.value
                               case Some(v) => Lookup(cur, op.key) == Some(v) && (prev.None? || Lookup(prev.value, op.key) != Some(v))
                               case None => op.key !in cur && prev.Some? && op.key in prev.value
  {
    if order != [] { SentIff(order[1..], prev, cur, op); }
  }

  lemma DeltaEmptyIff(ops: seq<Op>, names: seq<string>)
    ensures DeltaText(ops, names) == "" <==> ops == []
  {
    hide Render, Sort, Indexed;
    var changes := Indexed(ops, names);
    SortLength(changes);
    var sorted := Sort(changes, ByIndex);
    if ops != [] {
      var parts := RenderAll(sorted);
      assert parts[0] == RenderChange(sorted[0]) && parts[0] != "";
      assert Join(parts, ',') != "";
    }
  }

  lemma SortLength(changes: seq<Change>)
    ensures |Sort(changes, ByIndex)| == |changes|
  {
  }

  /** The value is the length alone if and only if the record says nothing that its predecessor does not. */
  lemma RepeatsIff(meta: Meta, previous: Option<Meta>, o: Orders, names: seq<string>)
    requires ValidOrders(o, meta, previous)
    ensures RecordValue(meta, previous, o, names) == Render(meta.contentLength) <==>
            && (meta.contentType == "" || (previous.Some? && previous.value.contentType == meta.contentType))
            && meta.labels == (if previous.Some? then previous.value.labels else map[]) && meta.computed == map[]
  {
    hide DeltaText, Render;
    var ops := RecordOps(meta, previous, o);
    DeltaEmptyIff(ops, names);
    NothingSentIff(meta, previous, o);
    LengthAlone(meta.contentLength, SentContentType(meta, previous), DeltaText(ops, names));
  }

  lemma LengthAlone(length: nat, contentType: string, delta: string)
    ensures HeaderText(length, contentType, delta) == Render(length) <==> contentType == "" && delta == ""
  {
    hide Render;
    assert |HeaderText(length, contentType, delta)| > |Render(length)| <==> contentType != "" || delta != "";
  }

  lemma NothingSentIff(meta: Meta, previous: Option<Meta>, o: Orders)
    requires ValidOrders(o, meta, previous)
    ensures RecordOps(meta, previous, o) == [] <==>
            meta.labels == (if previous.Some? then previous.value.labels else map[]) && meta.computed == map[]
  {
    hide LabelOps;
    var prev := PreviousLabels(previous);
    var before := if previous.Some? then previous.value.labels else map[];
    var ops := LabelOps(o.labels, prev, meta.labels);
    if ops == [] {
      forall k
        ensures Lookup(meta.labels, k) == Lookup(before, k)
      {
        if k in meta.labels { SentIff(o.labels, prev, meta.labels, Op(k, Some(meta.labels[k]))); }
        SentIff(o.labels, prev, meta.labels, Op(k, None));
      }
      SameLabels(meta.labels, before);
    } else if meta.labels == before {
      SentIff(o.labels, prev, meta.labels, ops[0]);
    }
    NoneComputedIff(o.computed, meta.computed);
  }

  lemma NoneComputedIff(order: seq<string>, computed: Labels)
    requires Enumerates(order, computed.Keys)
    ensures order == [] <==> computed == map[]
  {
    if order != [] { assert order[0] in order; }
    if computed != map[] {
      var k :| k in computed;
      assert k in order;
    }
  }

  lemma SameLabels(a: Labels, b: Labels)
    requires forall k :: Lookup(a, k) == Lookup(b, k)
    ensures a == b
  {
    forall k
      ensures k in a <==> k in b
      ensures k in a ==> a[k] == b[k]
    {
      assert Lookup(a, k) == Lookup(b, k);
    }
  }
}
