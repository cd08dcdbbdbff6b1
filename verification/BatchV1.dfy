/**
  The v1 header parser, and how far it agrees with the v2 parser on a header that stands
  alone: no previous record and no label table.
*/
module BatchV1 {
  import opened Common
  import opened Text
  import opened LabelDelta
  import opened RecordHeaders
  import opened BatchUpdates
  import opened Batch

  /** The label loop of `parse_batched_header`. */
  function LabelsFrom(rest: string, labels: Labels): Result<Labels>
    decreases |rest|
  {
    match SplitOnce(rest, '=')
    case None => Ok(labels)
    case Some((key, part)) =>
      var next :- NextValue(part);
      LabelsFrom(next.1, labels[Trim(key) := next.0])
  }

  function ParseHeader(header: string): Result<RecordHeader> {
    match SplitOnce(header, ',')
    case None => Err("Invalid batched header")
    case Some((lengthText, rest)) =>
      var length := ParseU64(Trim(lengthText));
      if length.None? then Err("Invalid content length")
      else
        var (contentType, labelText) :=
          match SplitOnce(rest, ',') case Some(p) => p case None => (rest, DEFAULT_CONTENT_TYPE);
        var labels :- LabelsFrom(labelText, map[]);
        Ok(RecordHeader(length.value, if contentType == "" then DEFAULT_CONTENT_TYPE else Trim(contentType), labels))
  }

  /** The loop as written: it terminates on every text. */
  method ParseLabels(text: string) returns (r: Result<Labels>)
    ensures r == LabelsFrom(text, map[])
  {
    hide Trim, IndexOf, TrimStartMatches;
    var labels: Labels := map[];
    var rest := text;
    while true
      invariant LabelsFrom(text, map[]) == LabelsFrom(rest, labels)
      decreases |rest|
    {
      match SplitOnce(rest, '=')
      case None =>
        return Ok(labels);
      case Some((key, value)) =>
        if value != "" && value[0] == '"' {
          var quoted := SplitOnce(value[1..], '"');
          if quoted.None? { return Err("Invalid batched header"); }
          labels := labels[Trim(key) := Trim(quoted.value.0)];
          rest := Trim(TrimStartMatches(quoted.value.1, ','));
        } else {
          var parts := SplitOnce(value, ',');
          if parts.Some? {
            labels := labels[Trim(key) := Trim(parts.value.0)];
            rest := Trim(parts.value.1);
          } else {
            labels := labels[Trim(key) := Trim(value)];
            LoopEnds(labels);
            return Ok(labels);
          }
        }
    }
  }

  lemma LoopEnds(labels: Labels)
    ensures LabelsFrom("", labels) == Ok(labels)
  {
  }

  method ParseBatchedHeader(header: string) returns (r: Result<RecordHeader>)
    ensures r == ParseHeader(header)
  {
    hide LabelsFrom, Trim, ParseU64;
    var first := SplitOnce(header, ',');
    if first.None? { return Err("Invalid batched header"); }
    var length := ParseU64(Trim(first.value.0));
    if length.None? { return Err("Invalid content length"); }
    var contentType, rest := first.value.1, DEFAULT_CONTENT_TYPE;
    var second := SplitOnce(first.value.1, ',');
    if second.Some? { contentType, rest := second.value.0, second.value.1; }
    var labels := ParseLabels(rest);
    if labels.Err? { return Err(labels.reason); }
    r := Ok(RecordHeader(length.value, if contentType == "" then DEFAULT_CONTENT_TYPE else Trim(contentType), labels.value));
  }

  // ----- white space around the label text does not matter -----

  lemma {:induction false} TrimCommasPad(x: string, w: string)
    requires AllSpace(w)
    ensures Trim(TrimStartMatches(x + w, ',')) == Trim(TrimStartMatches(x, ','))
  {
    hide Trim;
    if x == "" {
      assert x + w == w;
      TrimPad("", w);
      assert "" + w == w;
      if w != "" { assert IsSpace(w[0]); }
    } else if x[0] == ',' {
      assert (x + w)[1..] == x[1..] + w;
      TrimCommasPad(x[1..], w);
    } else {
      TrimPad(x, w);
    }
  }

  lemma NextValuePad(x: string, w: string)
    requires AllSpace(w)
    ensures NextValue(x + w) == NextValue(x)
  {
    hide Trim, SplitOnce, TrimStartMatches;
    if x != "" && x[0] == '"' {
      assert (x + w)[1..] == x[1..] + w;
      SplitOncePad(x[1..], w, '"');
      if SplitOnce(x[1..], '"').Some? { TrimCommasPad(SplitOnce(x[1..], '"').value.1, w); }
    } else {
      if x + w != "" && x == "" { assert IsSpace((x + w)[0]); }
      SplitOncePad(x, w, ',');
      if SplitOnce(x, ',').Some? { TrimPad(SplitOnce(x, ',').value.1, w); } else { TrimPad(x, w); }
    }
  }

  /** The loop sees the same labels whether or not its text was trimmed first. */
  lemma LabelsTrimmed(rest: string, labels: Labels)
    ensures LabelsFrom(rest, labels) == LabelsFrom(Trim(rest), labels)
  {
    var u := TrimStartRest(rest);
    var w := TrimEndRest(TrimStart(rest));
    var m := Trim(rest);
    NoneInSpace(u, '=');
    NoneInSpace(w, '=');
    LabelsPadded(u, m, w, labels);
    assert rest == u + (m + w);
  }

  lemma LabelsPadded(u: string, m: string, w: string, labels: Labels)
    requires AllSpace(u) && AllSpace(w)
    ensures LabelsFrom(u + (m + w), labels) == LabelsFrom(m, labels)
  {
    hide Trim, SplitOnce, NextValue;
    SplitOncePad(m, w, '=');
    NoneInSpace(u, '=');
    if SplitOnce(m, '=').Some? {
      var (key, part) := SplitOnce(m, '=').value;
      assert u + (m + w) == (u + key) + ['='] + (part + w);
      SplitOnceAt(u + key, '=', part + w);
      NextValuePad(part, w);
      TrimLead(u, key);
    } else {
      NoneInSpace(w, '=');
    }
  }

  // ----- the two loops -----

  /** The v1 meaning of operations: a removal leaves an empty value behind. */
  function ApplyV1(labels: Labels, ops: seq<Op>): Labels
    decreases |ops|
  {
    if ops == [] then labels else ApplyV1(labels[ops[0].key := ValueOr(ops[0].value)], ops[1..])
  }

  lemma {:induction false} LoopsAgree(rest: string, labels: Labels)
    requires ParseOpsFrom(rest, None).Ok?
    ensures LabelsFrom(rest, labels) == Ok(ApplyV1(labels, ParseOpsFrom(rest, None).value))
    decreases |rest|
  {
    hide Trim, SplitOnce, NextValue;
    var (key, part) := SplitOnce(rest, '=').value;
    var next := NextValue(part).value;
    var op := MakeOp(Trim(key), next.0);
    if next.1 == "" {
      assert ParseOpsFrom(rest, None).value == [op];
      LoopEnds(labels[Trim(key) := next.0]);
      assert [op][1..] == [];
    } else {
      LoopsAgree(next.1, labels[Trim(key) := next.0]);
      var tail := ParseOpsFrom(next.1, None).value;
      assert ([op] + tail)[1..] == tail;
    }
  }

  /** The labels with a non-empty value. */
  function NonEmpty(labels: Labels): Labels {
    map k | k in labels && labels[k] != "" :: labels[k]
  }

  lemma {:induction false} V1KeepsRemoved(labels: Labels, ops: seq<Op>)
    requires forall i :: 0 <= i < |ops| ==> ops[i].value != Some("")
    ensures NonEmpty(ApplyV1(labels, ops)) == ApplyOps(NonEmpty(labels), ops)
    decreases |ops|
  {
    if ops != [] {
      var op := ops[0];
      var next := labels[op.key := ValueOr(op.value)];
      V1KeepsRemoved(next, ops[1..]);
      assert NonEmpty(next) == ApplyOp(NonEmpty(labels), op);
    }
  }

  lemma {:induction false} ParsedNeverEmpty(rest: string, names: Option<seq<string>>)
    requires ParseOpsFrom(rest, names).Ok?
    ensures forall i :: 0 <= i < |ParseOpsFrom(rest, names).value| ==> ParseOpsFrom(rest, names).value[i].value != Some("")
    decreases |rest|
  {
    hide Trim, SplitOnce, NextValue, ResolveLabelName;
    var (key, part) := SplitOnce(rest, '=').value;
    var next := NextValue(part).value;
    if next.1 != "" { ParsedNeverEmpty(next.1, names); }
  }

  lemma DeltaLabels(labelText: string)
    requires ParseOps(labelText, None).Ok?
    ensures LabelsFrom(labelText, map[]) == Ok(ApplyV1(map[], ParseOps(labelText, None).value))
    ensures forall i :: 0 <= i < |ParseOps(labelText, None).value| ==> ParseOps(labelText, None).value[i].value != Some("")
  {
    hide Trim, ParseOpsFrom;
    LabelsTrimmed(labelText, map[]);
    if Trim(labelText) == "" {
      LoopEnds(map[]);
    } else {
      hide LabelsFrom;
      LoopsAgree(Trim(labelText), map[]);
      ParsedNeverEmpty(Trim(labelText), None);
    }
  }

  lemma DefaultHasNoLabels()
    ensures LabelsFrom(DEFAULT_CONTENT_TYPE, map[]) == Ok(map[])
  {
    assert '=' !in "application/octet-stream";
  }

  /** The content type is white space only: v1 takes it for empty, v2 for missing. */
  predicate BlankContentType(raw: string) {
    SplitOnce(raw, ',').Some? &&
    (var rest := SplitOnce(raw, ',').value.1;
     var contentType := if SplitOnce(rest, ',').Some? then SplitOnce(rest, ',').value.0 else rest;
     contentType != "" && Trim(contentType) == "")
  }

  /**
    Whenever v2 accepts a stand-alone header, v1 accepts it too and reads the same length; v2's
    labels are v1's without the empty ones; and the content types agree exactly when the type is
    not white space.
  */
  lemma V1AcceptsV2(raw: string)
    requires ParseRecordHeader(raw, None, None).Ok?
    ensures ParseHeader(raw).Ok?
    ensures var h1, h2 := ParseHeader(raw).value, ParseRecordHeader(raw, None, None).value;
            && h1.contentLength == h2.contentLength
            && (h1.contentType == h2.contentType <==> !BlankContentType(raw))
            && h1.labels == ApplyV1(map[], OpsOf(raw, None))
            && h2.labels == NonEmpty(h1.labels)
  {
    hide Trim, SplitOnce, ParseU64, ParseOps, LabelsFrom, ApplyOps, ApplyV1;
    var rest := SplitOnce(raw, ',').value.1;
    TrimNothing();
    NothingApplied();
    DefaultHasNoLabels();
    var split := SplitOnce(rest, ',');
    if split.Some? {
      var ops := ParseOps(split.value.1, None).value;
      DeltaLabels(split.value.1);
      V1KeepsRemoved(map[], ops);
      assert NonEmpty(map[]) == map[];
    }
  }

  /** For one, version 2 accepts every header with a length and a content type that survives. */
  lemma PlainHeaderAccepted(length: nat, contentType: string)
    requires length <= U64_MAX && ContentTypeSurvives(contentType)
    ensures ParseRecordHeader(HeaderText(length, contentType, ""), None, None).Ok?
    ensures !BlankContentType(HeaderText(length, contentType, ""))
  {
    hide ParseRecordHeader, Render;
    ParseNoDelta(length, contentType, None, None);
    NoCommaInNumber(length);
    assert HeaderText(length, contentType, "") == Render(length) + [','] + contentType;
    SplitOnceAt(Render(length), ',', contentType);
  }

  lemma TrimNothing()
    ensures Trim("") == ""
  {
  }

  lemma NothingApplied()
    ensures ApplyV1(map[], []) == map[] && ApplyOps(map[], []) == map[]
  {
  }

  /** No removal in the header is the last word on its label. */
  ghost predicate NoLastingRemoval(ops: seq<Op>) {
    forall k :: Final(ops, k) != Some(None)
  }

  lemma {:induction false} V1Final(labels: Labels, ops: seq<Op>, k: string)
    ensures Lookup(ApplyV1(labels, ops), k)
            == if Final(ops, k).Some? then Some(ValueOr(Final(ops, k).value)) else Lookup(labels, k)
    decreases |ops|
  {
    if ops != [] {
      V1Final(labels[ops[0].key := ValueOr(ops[0].value)], ops[1..], k);
      FinalFront(ops, k);
    }
  }

  lemma {:induction false} FinalFront(ops: seq<Op>, k: string)
    requires ops != []
    ensures Final(ops, k) == if Final(ops[1..], k).Some? then Final(ops[1..], k)
                             else if ops[0].key == k then Some(ops[0].value) else None
    decreases |ops|
  {
    if |ops| > 1 {
      FinalFront(ops[..|ops| - 1], k);
      assert ops[..|ops| - 1][1..] == ops[1..][..|ops[1..]| - 1];
      assert ops[1..][|ops[1..]| - 1] == ops[|ops| - 1];
    }
  }

  lemma {:induction false} FinalNeverEmpty(ops: seq<Op>, k: string)
    requires forall i :: 0 <= i < |ops| ==> ops[i].value != Some("")
    ensures Final(ops, k) != Some(Some(""))
  {
    if ops != [] { FinalNeverEmpty(ops[..|ops| - 1], k); }
  }

  /** The two parsers return the same header exactly when the content type is not white space and no label ends up removed. */
  lemma V1EqualsV2Iff(raw: string)
    requires ParseRecordHeader(raw, None, None).Ok?
    ensures ParseHeader(raw) == ParseRecordHeader(raw, None, None)
            <==> !BlankContentType(raw) && NoLastingRemoval(OpsOf(raw, None))
  {
    hide ParseHeader, ParseRecordHeader, BlankContentType, OpsOf, ApplyV1, Final;
    V1AcceptsV2(raw);
    var ops := OpsOf(raw, None);
    OpsNeverEmpty(raw);
    var l1 := ParseHeader(raw).value.labels;
    forall k
      ensures (k in l1 && l1[k] == "") <==> Final(ops, k) == Some(None)
    {
      V1Final(map[], ops, k);
      FinalNeverEmpty(ops, k);
      assert k in l1 <==> Lookup(l1, k).Some?;
    }
    if NoLastingRemoval(ops) {
      assert NonEmpty(l1) == l1;
    } else {
      var k :| Final(ops, k) == Some(None);
      assert k in l1 && k !in NonEmpty(l1);
    }
  }

  lemma OpsNeverEmpty(raw: string)
    ensures forall i :: 0 <= i < |OpsOf(raw, None)| ==> OpsOf(raw, None)[i].value != Some("")
  {
    hide SplitOnce, Trim, ParseOpsFrom;
    if DeltaPart(raw).Some? && ParseOps(DeltaPart(raw).value, None).Ok? && Trim(DeltaPart(raw).value) != "" {
      ParsedNeverEmpty(Trim(DeltaPart(raw).value), None);
    }
  }
}
