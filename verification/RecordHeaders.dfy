/**
  The header value of one record in batched protocol v2: how it is made against the
  previous record of its entry, how it is parsed, and why parsing undoes making.
*/
module RecordHeaders {
  import opened Common
  import opened Text
  import opened Sorting
  import opened LabelDelta

  const DEFAULT_CONTENT_TYPE := "application/octet-stream"

  datatype Meta = Meta(contentLength: nat, contentType: string, labels: Labels, computed: Labels)

  datatype RecordHeader = RecordHeader(contentLength: nat, contentType: string, labels: Labels)

  /** The orders in which the encoder's loops visit a record's label maps. */
  datatype Orders = Orders(labels: seq<string>, computed: seq<string>)

  ghost predicate ValidOrders(o: Orders, meta: Meta, previous: Option<Meta>) {
    && Enumerates(o.labels, ChangedKeys(PreviousLabels(previous), meta.labels))
    && Enumerates(o.computed, meta.computed.Keys)
  }

  function PreviousLabels(previous: Option<Meta>): Option<Labels> {
    if previous.Some? then Some(previous.value.labels) else None
  }

  // ----- making -----

  ghost function RecordOps(meta: Meta, previous: Option<Meta>, o: Orders): seq<Op>
    requires ValidOrders(o, meta, previous)
  {
    LabelOps(o.labels, PreviousLabels(previous), meta.labels) + ComputedOps(o.computed, meta.computed)
  }

  function SentContentType(meta: Meta, previous: Option<Meta>): string {
    if previous.Some? && previous.value.contentType == meta.contentType then "" else meta.contentType
  }

  function HeaderText(length: nat, contentType: string, delta: string): string {
    if contentType == "" && delta == "" then Render(length)
    else if delta == "" then Render(length) + "," + contentType
    else Render(length) + "," + (contentType + "," + delta)
  }

  /** The header value of a record, given the label table before it. */
  ghost function RecordValue(meta: Meta, previous: Option<Meta>, o: Orders, names: seq<string>): string
    requires ValidOrders(o, meta, previous)
  {
    HeaderText(meta.contentLength, SentContentType(meta, previous), DeltaText(RecordOps(meta, previous, o), names))
  }

  /** Makes the header value of a record; without a value where the text is none for a header and the code panics. */
  method MakeRecordHeaderValue(meta: Meta, previous: Option<Meta>, index: LabelIndex, o: Orders)
    returns (value: Option<string>)
    requires index.Valid() && ValidOrders(o, meta, previous)
    modifies index
    ensures index.Valid()
    ensures var text := RecordValue(meta, previous, o, old(index.names));
            value == if IsHeaderValue(text) then Some(text) else None
    ensures index.names == Register(RecordOps(meta, previous, o), old(index.names))
  {
    hide DeltaText, LabelOps, Register, Render, IsHeaderValue;
    var parts := [Render(meta.contentLength)];
    var contentType := "";
    if previous.None? || previous.value.contentType != meta.contentType {
      contentType := meta.contentType;
    }
    var delta := BuildLabelDelta(meta.labels, meta.computed, PreviousLabels(previous), index, o.labels, o.computed);
    if contentType != "" || delta != "" {
      parts := parts + [contentType];
    }
    if delta != "" {
      parts := parts + [delta];
    }
    var text := Join(parts, ',');
    JoinFew(Render(meta.contentLength), contentType, delta, ',');
    value := if IsHeaderValue(text) then Some(text) else None;
  }

  lemma JoinFew(a: string, b: string, d: string, c: char)
    ensures Join([a], c) == a
    ensures Join([a] + [b], c) == a + [c] + b
    ensures Join([a] + [b] + [d], c) == a + [c] + (b + [c] + d)
  {
    assert ([a] + [b])[1..] == [b];
    assert ([a] + [b] + [d])[1..] == [b] + [d];
    assert ([b] + [d])[1..] == [d];
    assert Join([b] + [d], c) == b + [c] + d;
  }

  // ----- parsing -----

  function BaseLabels(previous: Option<RecordHeader>): Labels {
    if previous.Some? then previous.value.labels else map[]
  }

  function ParsedContentType(raw: string, previous: Option<RecordHeader>): string {
    if Trim(raw) != "" then Trim(raw)
    else if previous.Some? then previous.value.contentType
    else DEFAULT_CONTENT_TYPE
  }

  /** `parse_record_header_with_defaults` */
  function ParseRecordHeader(raw: string, previous: Option<RecordHeader>, names: Option<seq<string>>)
    : Result<RecordHeader>
  {
    var split := SplitOnce(raw, ',');
    var lengthText := if split.Some? then split.value.0 else raw;
    var length := ParseU64(Trim(lengthText));
    if length.None? then Err("Invalid batched header")
    else if split.None? then
      if previous.None? then Err("Content-type and labels must be provided for the first record of an entry")
      else Ok(RecordHeader(length.value, previous.value.contentType, previous.value.labels))
    else
      match SplitOnce(split.value.1, ',')
      case None =>
        Ok(RecordHeader(length.value, ParsedContentType(split.value.1, previous), BaseLabels(previous)))
      case Some((contentType, rawLabels)) =>
        var ops :- ParseOps(rawLabels, names);
        Ok(RecordHeader(length.value, ParsedContentType(contentType, previous), ApplyOps(BaseLabels(previous), ops)))
  }

  // ----- parsing undoes making -----

  /** The content types that come back from the parser. */
  predicate ContentTypeParses(contentType: string) {
    contentType != "" && Trimmed(contentType) && ',' !in contentType
  }

  /** The content types that survive being sent: they must be text for a header, too. */
  predicate ContentTypeSurvives(contentType: string) {
    ContentTypeParses(contentType) && IsHeaderText(contentType)
  }

  predicate MetaSurvives(m: Meta) {
    && m.contentLength <= U64_MAX
    && ContentTypeSurvives(m.contentType)
    && (forall k :: k in m.labels ==> !Reserved(k) && ValueSurvives(m.labels[k]))
    && (forall k :: k in m.computed ==> ValueSurvives(m.computed[k]))
  }

  /** The labels that are not reserved for computed values. */
  function Plain(labels: Labels): Labels {
    map k | k in labels && !Reserved(k) :: labels[k]
  }

  /** The labels that are reserved for computed values. */
  function Marked(labels: Labels): Labels {
    map k | k in labels && Reserved(k) :: labels[k]
  }

  /** Computed labels as the decoder sees them, with their mark. */
  function AtLabels(computed: Labels): Labels {
    map key | key in (set k | k in computed :: "@" + k) :: computed[key[1..]]
  }

  /** The decoded header carries the record's length, content type and labels. */
  ghost predicate Carries(h: RecordHeader, m: Meta) {
    h.contentLength == m.contentLength && h.contentType == m.contentType && Plain(h.labels) == m.labels
  }

  ghost predicate CarriesPrevious(h: Option<RecordHeader>, m: Option<Meta>) {
    (h.Some? <==> m.Some?) && (h.Some? ==> Carries(h.value, m.value))
  }

  lemma NoCommaInNumber(n: nat)
    ensures ',' !in Render(n)
  {
    hide Render;
    assert forall i :: 0 <= i < |Render(n)| ==> IsDigit(Render(n)[i]);
  }

  lemma ParseLengthOnly(length: nat, previous: RecordHeader, names: Option<seq<string>>)
    requires length <= U64_MAX
    ensures ParseRecordHeader(HeaderText(length, "", ""), Some(previous), names)
            == Ok(RecordHeader(length, previous.contentType, previous.labels))
  {
    hide Render, ParseU64, Trim, ParseOps, IndexOf;
    NoCommaInNumber(length);
    ParseOfRender(length);
  }

  lemma ParseNoDelta(length: nat, contentType: string, previous: Option<RecordHeader>, names: Option<seq<string>>)
    requires length <= U64_MAX && ContentTypeParses(contentType)
    ensures ParseRecordHeader(HeaderText(length, contentType, ""), previous, names)
            == Ok(RecordHeader(length, contentType, BaseLabels(previous)))
  {
    hide Render, ParseU64, Trim, ParseOps, IndexOf;
    NoCommaInNumber(length);
    ParseOfRender(length);
    SplitOnceAt(Render(length), ',', contentType);
  }

  lemma ParseWithDelta(length: nat, contentType: string, delta: string,
                       previous: Option<RecordHeader>, names: Option<seq<string>>, ops: seq<Op>)
    requires length <= U64_MAX && delta != ""
    requires contentType == "" || ContentTypeParses(contentType)
    requires ParseOps(delta, names) == Ok(ops)
    ensures ParseRecordHeader(HeaderText(length, contentType, delta), previous, names)
            == Ok(RecordHeader(length, ParsedContentType(contentType, previous), ApplyOps(BaseLabels(previous), ops)))
  {
    hide Render, ParseU64, Trim, ParseOps, IndexOf, ApplyOps;
    NoCommaInNumber(length);
    ParseOfRender(length);
    SplitOnceAt(Render(length), ',', contentType + "," + delta);
    SplitOnceAt(contentType, ',', delta);
  }

  // ----- what the operations of a record do to the labels -----

  ghost predicate DistinctKeys(ops: seq<Op>) {
    forall i, j :: 0 <= i < j < |ops| ==> ops[i].key != ops[j].key
  }

  /** With distinct keys only membership matters: an operation decides its key, other keys stay. */
  lemma {:induction false} ApplyDistinct(base: Labels, ops: seq<Op>, k: string)
    requires DistinctKeys(ops)
    ensures forall op :: op in ops && op.key == k && op.value.Some? ==>
              k in ApplyOps(base, ops) && ApplyOps(base, ops)[k] == op.value.value
    ensures forall op :: op in ops && op.key == k && op.value.None? ==> k !in ApplyOps(base, ops)
    ensures (forall op :: op in ops ==> op.key != k) ==>
              (k in ApplyOps(base, ops) <==> k in base) && (k in base ==> ApplyOps(base, ops)[k] == base[k])
    decreases |ops|
  {
    if ops != [] {
      ApplyDistinct(ApplyOp(base, ops[0]), ops[1..], k);
      assert ops == [ops[0]] + ops[1..];
    }
  }

  lemma {:induction false} LabelOpsMembers(order: seq<string>, prev: Option<Labels>, cur: Labels)
    requires Unique(order)
    ensures var ops := LabelOps(order, prev, cur);
            && DistinctKeys(ops)
            && (forall op :: op in ops <==> op.key in order && LabelChange(op.key, prev, cur) == Some(op))
  {
    if order != [] {
      LabelOpsMembers(order[1..], prev, cur);
      assert order == [order[0]] + order[1..];
      assert order[0] !in order[1..];
    }
  }

  /** Every label of the table-free delta is set or removed as the new record wants it. */
  lemma OpsReach(meta: Meta, previous: Option<Meta>, o: Orders, base: Labels, ops: seq<Op>, k: string)
    requires ValidOrders(o, meta, previous) && !Reserved(k)
    requires Plain(base) == (if previous.Some? then previous.value.labels else map[])
    requires DistinctKeys(ops)
    requires forall op :: op in ops <==> op in RecordOps(meta, previous, o)
    ensures k in ApplyOps(base, ops) <==> k in meta.labels
    ensures k in meta.labels ==> ApplyOps(base, ops)[k] == meta.labels[k]
  {
    hide ApplyOps, LabelOps, Unique, DistinctKeys;
    var prev := PreviousLabels(previous);
    var labelOps, computedOps := LabelOps(o.labels, prev, meta.labels), ComputedOps(o.computed, meta.computed);
    LabelOpsMembers(o.labels, prev, meta.labels);
    ApplyDistinct(base, ops, k);
    assert forall op :: op in computedOps ==> Reserved(op.key);
    var change := LabelChange(k, prev, meta.labels);
    if change.Some? {
      assert change.value in labelOps;
      assert change.value in RecordOps(meta, previous, o);
      assert change.value in ops;
    } else {
      forall op | op in ops
        ensures op.key != k
      {
        assert op in RecordOps(meta, previous, o);
        assert op in labelOps || op in computedOps;
      }
      assert k in base <==> k in Plain(base);
    }
  }

  /** Computed labels are set as the record has them; a marked label it lacks stays as it was. */
  lemma OpsMark(meta: Meta, previous: Option<Meta>, o: Orders, base: Labels, ops: seq<Op>, k: string)
    requires ValidOrders(o, meta, previous) && Reserved(k)
    requires forall x :: x in ChangedKeys(PreviousLabels(previous), meta.labels) ==> !Reserved(x)
    requires DistinctKeys(ops)
    requires forall op :: op in ops <==> op in RecordOps(meta, previous, o)
    ensures var after, marked := ApplyOps(base, ops), AtLabels(meta.computed);
            if k in marked then k in after && after[k] == marked[k]
            else (k in after <==> k in base) && (k in base ==> after[k] == base[k])
  {
    hide ApplyOps, LabelOps, Unique, DistinctKeys;
    var labelOps, computedOps := LabelOps(o.labels, PreviousLabels(previous), meta.labels), ComputedOps(o.computed, meta.computed);
    LabelOpsMembers(o.labels, PreviousLabels(previous), meta.labels);
    ApplyDistinct(base, ops, k);
    if k in AtLabels(meta.computed) {
      MarkedOp(o, meta, k);
      assert Op(k, Some(AtLabels(meta.computed)[k])) in RecordOps(meta, previous, o);
    } else {
      forall op | op in ops
        ensures op.key != k
      {
        assert op in labelOps || op in computedOps;
        if op in computedOps { ComputedOpMarked(o, meta, op); }
      }
    }
  }

  lemma MarkedOp(o: Orders, meta: Meta, k: string)
    requires Enumerates(o.computed, meta.computed.Keys) && k in AtLabels(meta.computed)
    ensures Op(k, Some(AtLabels(meta.computed)[k])) in ComputedOps(o.computed, meta.computed)
  {
    var c :| c in meta.computed && k == "@" + c;
    assert k[1..] == c && c in o.computed;
    var i :| 0 <= i < |o.computed| && o.computed[i] == c;
    assert ComputedOps(o.computed, meta.computed)[i] == Op(k, Some(meta.computed[c]));
  }

  lemma ComputedOpMarked(o: Orders, meta: Meta, op: Op)
    requires Enumerates(o.computed, meta.computed.Keys) && op in ComputedOps(o.computed, meta.computed)
    ensures op.key in AtLabels(meta.computed)
  {
    var i :| 0 <= i < |o.computed| && ComputedOps(o.computed, meta.computed)[i] == op;
    assert o.computed[i] in meta.computed;
  }

  lemma RecordOpsDistinct(meta: Meta, previous: Option<Meta>, o: Orders)
    requires ValidOrders(o, meta, previous)
    requires forall k :: k in ChangedKeys(PreviousLabels(previous), meta.labels) ==> !Reserved(k)
    ensures DistinctKeys(RecordOps(meta, previous, o))
  {
    hide LabelOps;
    var labelOps := LabelOps(o.labels, PreviousLabels(previous), meta.labels);
    var computedOps := ComputedOps(o.computed, meta.computed);
    LabelOpsMembers(o.labels, PreviousLabels(previous), meta.labels);
    assert forall i :: 0 <= i < |labelOps| ==> labelOps[i] in labelOps;
    assert forall i :: 0 <= i < |computedOps| ==> computedOps[i].key[1..] == o.computed[i];
  }

  // ----- the table -----

  lemma {:induction false} IndexedNames(ops: seq<Op>, names: seq<string>, final: seq<string>)
    requires Register(ops, names) <= final
    ensures forall i :: 0 <= i < |ops| ==>
              var c := Indexed(ops, names)[i];
              c.idx < |final| && final[c.idx] == ops[i].key && c.value == ops[i].value
  {
    if ops != [] {
      var next := EnsureNames(names, ops[0].key);
      assert next <= Register(ops[1..], next) <= final;
      IndexedNames(ops[1..], next, final);
      var p := Position(names, ops[0].key);
      assert next[p] == ops[0].key && final[p] == next[p];
    }
  }

  /** The sorted changes, read with the final table, are the operations in another order. */
  lemma SortedChangesNamed(ops: seq<Op>, names: seq<string>, final: seq<string>)
    requires Register(ops, names) <= final && Unique(final) && DistinctKeys(ops)
    ensures var sorted := Sort(Indexed(ops, names), ByIndex);
            && |sorted| == |ops|
            && (forall i :: 0 <= i < |sorted| ==> sorted[i].idx < |final|)
            && DistinctKeys(Named(sorted, final))
            && (forall op :: op in Named(sorted, final) <==> op in ops)
  {
    hide Register, Indexed, Sort;
    var changes := Indexed(ops, names);
    var sorted := Sort(changes, ByIndex);
    IndexedNames(ops, names, final);
    IndexesDistinct(ops, changes, final);
    SortDistinct(changes, ByIndex, (c: Change) => c.idx);
    forall c
      ensures c in sorted <==> c in changes
    {
      SameElements(sorted, changes, c);
    }
    assert forall i :: 0 <= i < |sorted| ==> sorted[i] in changes;
    NamedMembers(ops, changes, sorted, Named(sorted, final), final);
    NamesDistinct(sorted, final);
  }

  lemma IndexesDistinct(ops: seq<Op>, changes: seq<Change>, final: seq<string>)
    requires |changes| == |ops| && DistinctKeys(ops)
    requires forall i :: 0 <= i < |ops| ==> changes[i].idx < |final| && final[changes[i].idx] == ops[i].key
    ensures DistinctBy(changes, (c: Change) => c.idx)
  {
    forall i, j | 0 <= i < j < |changes|
      ensures changes[i].idx != changes[j].idx
    {
      assert ops[i].key != ops[j].key;
    }
  }

  lemma NamesDistinct(sorted: seq<Change>, final: seq<string>)
    requires forall i :: 0 <= i < |sorted| ==> sorted[i].idx < |final|
    requires DistinctBy(sorted, (c: Change) => c.idx) && Unique(final)
    ensures DistinctKeys(Named(sorted, final))
  {
    forall i, j | 0 <= i < j < |sorted|
      ensures final[sorted[i].idx] != final[sorted[j].idx]
    {
      var key := (c: Change) => c.idx;
      assert key(sorted[i]) != key(sorted[j]);
    }
  }

  lemma NamedMembers(ops: seq<Op>, changes: seq<Change>, sorted: seq<Change>, named: seq<Op>, final: seq<string>)
    requires |changes| == |ops| && |named| == |sorted|
    requires forall i :: 0 <= i < |ops| ==>
               changes[i].idx < |final| && ops[i] == Op(final[changes[i].idx], changes[i].value)
    requires forall i :: 0 <= i < |sorted| ==>
               sorted[i].idx < |final| && named[i] == Op(final[sorted[i].idx], sorted[i].value)
    requires forall c :: c in sorted <==> c in changes
    ensures forall op :: op in named <==> op in ops
  {
    forall op
      ensures op in named <==> op in ops
    {
      if op in named {
        var i :| 0 <= i < |named| && named[i] == op;
        assert sorted[i] in changes;
        var j :| 0 <= j < |changes| && changes[j] == sorted[i];
        assert ops[j] == op;
      }
      if op in ops {
        var j :| 0 <= j < |ops| && ops[j] == op;
        assert changes[j] in sorted;
        var i :| 0 <= i < |sorted| && sorted[i] == changes[j];
        assert named[i] == op;
      }
    }
  }

  // ----- one record -----

  lemma OpsSurvive(meta: Meta, previous: Option<Meta>, o: Orders)
    requires ValidOrders(o, meta, previous) && MetaSurvives(meta)
    ensures forall op :: op in RecordOps(meta, previous, o) ==> OpParses(op.value) && IsHeaderText(ValueOr(op.value))
  {
    hide LabelOps, ValueParses, IsHeaderText, Unique;
    NoText("");
    LabelOpsMembers(o.labels, PreviousLabels(previous), meta.labels);
  }

  lemma DeltaSendable(ops: seq<Op>, names: seq<string>, final: seq<string>)
    requires Register(ops, names) <= final && Unique(final) && |final| <= U64_MAX && DistinctKeys(ops)
    requires forall op :: op in ops ==> OpParses(op.value)
    ensures Sendable(Sort(Indexed(ops, names), ByIndex), final)
  {
    hide Register, Indexed, Sort, OpParses, DistinctKeys, Unique;
    var sorted := Sort(Indexed(ops, names), ByIndex);
    SortedChangesNamed(ops, names, final);
    var named := Named(sorted, final);
    assert forall i :: 0 <= i < |sorted| ==> named[i] in ops;
  }

  /** The delta of a record, read with any later table, leads the decoder to the record's labels. */
  lemma DeltaDecodes(meta: Meta, previous: Option<Meta>, o: Orders, names: seq<string>, final: seq<string>,
                     base: Labels)
    requires ValidOrders(o, meta, previous) && MetaSurvives(meta)
    requires previous.Some? ==> MetaSurvives(previous.value)
    requires Register(RecordOps(meta, previous, o), names) <= final && Unique(final) && |final| <= U64_MAX
    requires Plain(base) == (if previous.Some? then previous.value.labels else map[])
    requires RecordOps(meta, previous, o) != []
    ensures var delta := DeltaText(RecordOps(meta, previous, o), names);
            && delta != "" && ParseOps(delta, Some(final)).Ok?
            && Plain(ApplyOps(base, ParseOps(delta, Some(final)).value)) == meta.labels
            && Marked(ApplyOps(base, ParseOps(delta, Some(final)).value)) == Marked(base) + AtLabels(meta.computed)
  {
    hide Register, Indexed, Sort, LabelOps, Unique, ApplyOps, ParseOpsFrom, DistinctKeys, Sendable, Join, ValueSurvives, Trim,
         Plain, Marked, AtLabels;
    var ops := RecordOps(meta, previous, o);
    RecordOpsDistinct(meta, previous, o);
    OpsSurvive(meta, previous, o);
    DeltaSendable(ops, names, final);
    SortedChangesNamed(ops, names, final);
    var sorted := Sort(Indexed(ops, names), ByIndex);
    ParseRendered(sorted, final);
    var named := Named(sorted, final);
    PlainReach(meta, previous, o, base, named);
    MarksReach(meta, previous, o, base, named);
  }

  lemma PlainReach(meta: Meta, previous: Option<Meta>, o: Orders, base: Labels, ops: seq<Op>)
    requires ValidOrders(o, meta, previous) && DistinctKeys(ops)
    requires forall x :: x in meta.labels ==> !Reserved(x)
    requires Plain(base) == (if previous.Some? then previous.value.labels else map[])
    requires forall op :: op in ops <==> op in RecordOps(meta, previous, o)
    ensures Plain(ApplyOps(base, ops)) == meta.labels
  {
    hide ApplyOps, ValidOrders, DistinctKeys, RecordOps, Unique;
    forall k | !Reserved(k)
      ensures k in ApplyOps(base, ops) <==> k in meta.labels
      ensures k in meta.labels ==> ApplyOps(base, ops)[k] == meta.labels[k]
    {
      OpsReach(meta, previous, o, base, ops, k);
    }
  }

  lemma MarksReach(meta: Meta, previous: Option<Meta>, o: Orders, base: Labels, ops: seq<Op>)
    requires ValidOrders(o, meta, previous) && DistinctKeys(ops)
    requires forall x :: x in ChangedKeys(PreviousLabels(previous), meta.labels) ==> !Reserved(x)
    requires forall op :: op in ops <==> op in RecordOps(meta, previous, o)
    ensures Marked(ApplyOps(base, ops)) == Marked(base) + AtLabels(meta.computed)
  {
    hide ApplyOps, ValidOrders, DistinctKeys, RecordOps, Unique, AtLabels;
    MarksReserved(meta.computed);
    var l, r := Marked(ApplyOps(base, ops)), Marked(base) + AtLabels(meta.computed);
    forall k
      ensures k in l <==> k in r
      ensures k in l && k in r ==> l[k] == r[k]
    {
      if Reserved(k) { OpsMark(meta, previous, o, base, ops, k); }
    }
  }

  lemma MarksReserved(computed: Labels)
    ensures forall k :: k in AtLabels(computed) ==> Reserved(k)
  {
  }

  /** Without operations the labels did not change. */
  lemma NoOpsNoChange(meta: Meta, previous: Option<Meta>, o: Orders, base: Labels)
    requires ValidOrders(o, meta, previous) && MetaSurvives(meta)
    requires RecordOps(meta, previous, o) == []
    requires Plain(base) == (if previous.Some? then previous.value.labels else map[])
    ensures Plain(base) == meta.labels && AtLabels(meta.computed) == map[]
  {
    hide LabelOps, Unique, ValueSurvives;
    assert o.computed == [] && meta.computed.Keys == {};
    forall k | !Reserved(k)
      ensures k in base <==> k in meta.labels
      ensures k in meta.labels ==> base[k] == meta.labels[k]
    {
      OpsReach(meta, previous, o, base, [], k);
    }
  }

  /**
    Parsing a made header value with the previous decoded header and any later state of the
    label table gives back the record's length, content type and labels. Computed labels add up:
    those of the record are set, and those that only earlier records of the entry had remain.
  */
  lemma RecordRoundTrip(meta: Meta, previous: Option<Meta>, o: Orders, names: seq<string>, final: seq<string>,
                        decoded: Option<RecordHeader>)
    requires ValidOrders(o, meta, previous) && MetaSurvives(meta)
    requires previous.Some? ==> MetaSurvives(previous.value)
    requires Register(RecordOps(meta, previous, o), names) <= final && Unique(final) && |final| <= U64_MAX
    requires CarriesPrevious(decoded, previous)
    ensures var table := if final == [] then None else Some(final);
            var r := ParseRecordHeader(RecordValue(meta, previous, o, names), decoded, table);
            && r.Ok? && Carries(r.value, meta)
            && Marked(r.value.labels) == Marked(BaseLabels(decoded)) + AtLabels(meta.computed)
  {
    hide ParseRecordHeader, DeltaText, Register, ValidOrders, Unique, ValueSurvives, ParseOps;
    var table := if final == [] then None else Some(final);
    var ops := RecordOps(meta, previous, o);
    var contentType := SentContentType(meta, previous);
    var base := BaseLabels(decoded);
    if ops == [] {
      EmptyDelta(names);
      NoOpsNoChange(meta, previous, o, base);
      if contentType == "" {
        ParseLengthOnly(meta.contentLength, decoded.value, table);
      } else {
        ParseNoDelta(meta.contentLength, contentType, decoded, table);
      }
    } else {
      RegisterNonEmpty(ops, names);
      DeltaDecodes(meta, previous, o, names, final, base);
      var delta := DeltaText(ops, names);
      ParseWithDelta(meta.contentLength, contentType, delta, decoded, table, ParseOps(delta, table).value);
    }
  }

  /** A record that repeats its predecessor is refused where the decoder has none: the order of the records matters. */
  lemma NeedsPrevious(meta: Meta, previous: Meta, o: Orders, names: seq<string>, table: Option<seq<string>>)
    requires ValidOrders(o, meta, Some(previous)) && previous.contentType == meta.contentType
    requires RecordOps(meta, Some(previous), o) == []
    ensures ParseRecordHeader(RecordValue(meta, Some(previous), o, names), None, table).Err?
  {
    hide RecordOps, DeltaText;
    EmptyDelta(names);
    NoCommaInNumber(meta.contentLength);
  }

  lemma EmptyDelta(names: seq<string>)
    ensures DeltaText([], names) == ""
  {
  }

  lemma RegisterNonEmpty(ops: seq<Op>, names: seq<string>)
    requires ops != []
    ensures Register(ops, names) != []
  {
    assert EnsureNames(names, ops[0].key) <= Register(ops[1..], EnsureNames(names, ops[0].key));
  }

  lemma HeaderTextIsTextIff(length: nat, contentType: string, delta: string)
    ensures IsHeaderText(HeaderText(length, contentType, delta)) <==> IsHeaderText(contentType) && IsHeaderText(delta)
  {
    hide IsHeaderText, Render;
    DigitsAreText(Render(length));
    OneText(',');
    NoText("");
    TextAppend(Render(length), ",");
    TextAppend(Render(length) + ",", contentType);
    TextAppend(contentType, ",");
    TextAppend(contentType + ",", delta);
    TextAppend(Render(length) + ",", contentType + "," + delta);
  }

  /** What is sent for a record that survives is text for a header: making it does not panic and reading it succeeds. */
  lemma RecordValueIsText(meta: Meta, previous: Option<Meta>, o: Orders, names: seq<string>)
    requires ValidOrders(o, meta, previous) && MetaSurvives(meta)
    ensures IsHeaderText(RecordValue(meta, previous, o, names)) && IsHeaderValue(RecordValue(meta, previous, o, names))
  {
    hide IsHeaderText, IsHeaderValue, DeltaText, HeaderText, ValidOrders, RecordOps, MetaSurvives;
    TypeIsText(meta, previous);
    DeltaIsText(meta, previous, o, names);
    HeaderTextIsTextIff(meta.contentLength, SentContentType(meta, previous), DeltaText(RecordOps(meta, previous, o), names));
    HeaderTextIsValue(RecordValue(meta, previous, o, names));
  }

  lemma TypeIsText(meta: Meta, previous: Option<Meta>)
    requires MetaSurvives(meta)
    ensures IsHeaderText(SentContentType(meta, previous))
  {
    NoText("");
  }

  lemma DeltaIsText(meta: Meta, previous: Option<Meta>, o: Orders, names: seq<string>)
    requires ValidOrders(o, meta, previous) && MetaSurvives(meta)
    ensures IsHeaderText(DeltaText(RecordOps(meta, previous, o), names))
  {
    hide IsHeaderText, RecordOps, ValidOrders, MetaSurvives, RenderChange, Sort, Indexed, Join;
    var ops := RecordOps(meta, previous, o);
    var changes := Indexed(ops, names);
    var sorted := Sort(changes, ByIndex);
    OpsSurvive(meta, previous, o);
    IndexedValues(ops, names);
    forall i | 0 <= i < |sorted|
      ensures IsHeaderText(RenderChange(sorted[i]))
    {
      SameElements(sorted, changes, sorted[i]);
      var j :| 0 <= j < |changes| && changes[j] == sorted[i];
      assert ops[j] in ops;
      ChangeIsTextIff(sorted[i]);
    }
    TextJoin(RenderAll(sorted), ',');
    NoText("");
  }

  lemma {:induction false} IndexedValues(ops: seq<Op>, names: seq<string>)
    ensures forall i :: 0 <= i < |ops| ==> Indexed(ops, names)[i].value == ops[i].value
  {
    if ops != [] { IndexedValues(ops[1..], EnsureNames(names, ops[0].key)); }
  }

  /**
    The content type of a first record comes back from a header, which has to be read as text,
    exactly when it is printable ASCII, non-empty, trimmed and without a comma.
  */
  lemma ContentTypeRoundTripIff(length: nat, contentType: string, names: Option<seq<string>>)
    requires length <= U64_MAX
    ensures var text := HeaderText(length, contentType, "");
            var r := ParseRecordHeader(text, None, names);
            (IsHeaderText(text) && r.Ok? && r.value.contentType == contentType) <==> ContentTypeSurvives(contentType)
  {
    hide IsHeaderText, ParseRecordHeader, HeaderText;
    HeaderTextIsTextIff(length, contentType, "");
    NoText("");
    if ContentTypeParses(contentType) {
      ParseNoDelta(length, contentType, None, names);
    } else {
      ContentTypeLost(length, contentType, names);
    }
  }

  lemma ContentTypeLost(length: nat, contentType: string, names: Option<seq<string>>)
    requires !ContentTypeParses(contentType)
    ensures var r := ParseRecordHeader(HeaderText(length, contentType, ""), None, names);
            r.Ok? ==> r.value.contentType != contentType
  {
    hide Render, ParseU64, Trim, ParseOps, IndexOf, ApplyOps, ParsedContentType;
    NoCommaInNumber(length);
    if contentType != "" {
      SplitOnceAt(Render(length), ',', contentType);
      if ',' in contentType {
        var (a, b) := SplitOnce(contentType, ',').value;
        ParsedDiffers(a, contentType);
      } else {
        ParsedDiffers(contentType, contentType);
      }
    }
  }

  lemma ParsedDiffers(a: string, contentType: string)
    requires |a| <= |contentType| && a <= contentType
    requires if a == contentType then !Trimmed(a) else ',' in contentType
    ensures ParsedContentType(a, None) != contentType
  {
    hide Trim;
    assert Trimmed(DEFAULT_CONTENT_TYPE) && ',' !in DEFAULT_CONTENT_TYPE;
  }
}
