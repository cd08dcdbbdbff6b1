/**
  Label deltas of batched protocol v2: the label table that grows over a batch, the
  delta that is sent for a record, and the parser that applies it.
*/
module LabelDelta {
  import opened Common
  import opened Text
  import opened Sorting

  type Labels = map<string, string>

  /** A label operation: `Some` sets the label, `None` removes it. */
  datatype Op = Op(key: string, value: Option<string>)

  /** The same operation with the label named by its index in the table. */
  datatype Change = Change(idx: nat, value: Option<string>)

  // ----- the label table -----

  function Position(names: seq<string>, name: string): (i: nat)
    ensures i <= |names|
    ensures name in names <==> i < |names|
    ensures i < |names| ==> names[i] == name
  {
    if names == [] || names[0] == name then 0 else 1 + Position(names[1..], name)
  }

  /** The table after `name` was looked up. */
  function EnsureNames(names: seq<string>, name: string): (r: seq<string>)
    ensures names <= r && name in r
    ensures Unique(names) ==> Unique(r)
  {
    if name in names then names else names + [name]
  }

  class LabelIndex {
    var names: seq<string>
    var lookup: map<string, nat>

    ghost predicate Valid()
      reads this
    {
      && Unique(names)
      && (forall n :: n in lookup <==> n in names)
      && (forall n :: n in lookup ==> lookup[n] < |names| && names[lookup[n]] == n)
    }

    constructor ()
      ensures Valid() && names == []
    {
      names, lookup := [], map[];
    }

    /** Every label keeps the position it was given first; an unknown one goes to the end of the table. */
    method Ensure(name: string) returns (idx: nat)
      requires Valid()
      modifies this
      ensures Valid()
      ensures names == EnsureNames(old(names), name)
      ensures idx < |names| && names[idx] == name
      ensures idx == Position(old(names), name)
    {
      if name in lookup {
        return lookup[name];
      }
      idx := |names|;
      names := names + [name];
      lookup := lookup[name := idx];
    }
  }

  // ----- encoding -----

  /** What happened to one label since the previous record, if anything. */
  function LabelChange(key: string, prev: Option<Labels>, cur: Labels): Option<Op> {
    var before := if prev.Some? && key in prev.value then Some(prev.value[key]) else None;
    if key in cur then
      if before == Some(cur[key]) then None else Some(Op(key, Some(cur[key])))
    else if before.Some? then Some(Op(key, None))
    else None
  }

  function LabelOps(order: seq<string>, prev: Option<Labels>, cur: Labels): seq<Op> {
    if order == [] then []
    else
      var rest := LabelOps(order[1..], prev, cur);
      match LabelChange(order[0], prev, cur)
      case Some(op) => [op] + rest
      case None => rest
  }

  function ComputedOps(order: seq<string>, computed: Labels): (ops: seq<Op>)
    requires forall i :: 0 <= i < |order| ==> order[i] in computed
    ensures |ops| == |order|
    ensures forall i :: 0 <= i < |order| ==> ops[i] == Op("@" + order[i], Some(computed[order[i]]))
  {
    seq(|order|, i requires 0 <= i < |order| => Op("@" + order[i], Some(computed[order[i]])))
  }

  /** The table after the keys of `ops` were looked up in order. */
  function Register(ops: seq<Op>, names: seq<string>): (r: seq<string>)
    ensures names <= r
    ensures Unique(names) ==> Unique(r)
  {
    if ops == [] then names else Register(ops[1..], EnsureNames(names, ops[0].key))
  }

  /** The operations with the indexes that looking up their keys yields. */
  function Indexed(ops: seq<Op>, names: seq<string>): (r: seq<Change>)
    ensures |r| == |ops|
  {
    if ops == [] then []
    else [Change(Position(names, ops[0].key), ops[0].value)]
         + Indexed(ops[1..], EnsureNames(names, ops[0].key))
  }

  function FormatValue(value: string): string {
    if ',' in value then "\"" + value + "\"" else value
  }

  function ValueText(value: Option<string>): string {
    match value
    case Some(v) => FormatValue(v)
    case None => ""
  }

  function RenderChange(c: Change): string {
    Render(c.idx) + "=" + ValueText(c.value)
  }

  function RenderAll(changes: seq<Change>): seq<string> {
    seq(|changes|, i requires 0 <= i < |changes| => RenderChange(changes[i]))
  }

  predicate ByIndex(a: Change, b: Change) {
    a.idx <= b.idx
  }

  /** The delta text of `ops` against the table `names`. */
  function DeltaText(ops: seq<Op>, names: seq<string>): string {
    Join(RenderAll(Sort(Indexed(ops, names), ByIndex)), ',')
  }

  /** The keys a loop over label maps visits: each key once, in any order. */
  ghost predicate Enumerates(order: seq<string>, keys: set<string>) {
    Unique(order) && forall k :: k in order <==> k in keys
  }

  ghost function ChangedKeys(prev: Option<Labels>, cur: Labels): set<string> {
    if prev.Some? then prev.value.Keys + cur.Keys else cur.Keys
  }

  lemma {:induction false} RegisterAppend(a: seq<Op>, b: seq<Op>, names: seq<string>)
    ensures Register(a + b, names) == Register(b, Register(a, names))
    ensures Indexed(a + b, names) == Indexed(a, names) + Indexed(b, Register(a, names))
  {
    if a == [] {
      assert a + b == b;
    } else {
      assert (a + b)[1..] == a[1..] + b;
      RegisterAppend(a[1..], b, EnsureNames(names, a[0].key));
    }
  }

  lemma RegisterOne(op: Op, names: seq<string>)
    ensures Register([op], names) == EnsureNames(names, op.key)
    ensures Indexed([op], names) == [Change(Position(names, op.key), op.value)]
  {
  }

  lemma LabelOpsStep(order: seq<string>, i: nat, prev: Option<Labels>, cur: Labels)
    requires i < |order|
    ensures LabelOps(order[..i + 1], prev, cur) == LabelOps(order[..i], prev, cur) +
            (var change := LabelChange(order[i], prev, cur); if change.Some? then [change.value] else [])
  {
    LabelOpsAppend(order[..i], [order[i]], prev, cur);
    assert order[..i + 1] == order[..i] + [order[i]];
  }

  lemma {:induction false} LabelOpsAppend(a: seq<string>, b: seq<string>, prev: Option<Labels>, cur: Labels)
    ensures LabelOps(a + b, prev, cur) == LabelOps(a, prev, cur) + LabelOps(b, prev, cur)
  {
    if a == [] {
      assert a + b == b;
    } else {
      assert (a + b)[1..] == a[1..] + b;
      LabelOpsAppend(a[1..], b, prev, cur);
    }
  }

  /** Looks up the key of one operation and records the change. */
  method PushChange(op: Op, index: LabelIndex, deltas: seq<Change>, ghost ops: seq<Op>, ghost start: seq<string>)
    returns (r: seq<Change>)
    requires index.Valid()
    requires deltas == Indexed(ops, start) && index.names == Register(ops, start)
    modifies index
    ensures index.Valid()
    ensures r == Indexed(ops + [op], start) && index.names == Register(ops + [op], start)
  {
    RegisterAppend(ops, [op], start);
    RegisterOne(op, index.names);
    var idx := index.Ensure(op.key);
    r := deltas + [Change(idx, op.value)];
  }

  /**
    Builds the delta of a record. `order` and `computedOrder` are the orders in which the
    loops visit the label keys: sorted when there is a previous record, otherwise whatever
    order the hash maps give.
  */
  method BuildLabelDelta(labels: Labels, computed: Labels, previous: Option<Labels>, index: LabelIndex,
                         order: seq<string>, computedOrder: seq<string>)
    returns (delta: string)
    requires index.Valid()
    requires Enumerates(order, ChangedKeys(previous, labels))
    requires Enumerates(computedOrder, computed.Keys)
    modifies index
    ensures index.Valid()
    ensures var ops := LabelOps(order, previous, labels) + ComputedOps(computedOrder, computed);
            delta == DeltaText(ops, old(index.names)) && index.names == Register(ops, old(index.names))
  {
    hide Register, Indexed, LabelOps, Sort, Join, RenderAll, Unique;
    ghost var start := index.names;
    ghost var ops: seq<Op> := LabelOps(order[..0], previous, labels);
    var deltas: seq<Change> := [];
    RegisterNone(start, previous, labels);
    for i := 0 to |order|
      invariant index.Valid()
      invariant ops == LabelOps(order[..i], previous, labels)
      invariant deltas == Indexed(ops, start) && index.names == Register(ops, start)
    {
      LabelOpsStep(order, i, previous, labels);
      var change := LabelChange(order[i], previous, labels);
      if change.Some? {
        deltas := PushChange(change.value, index, deltas, ops, start);
        ops := ops + [change.value];
      }
    }
    assert order[..|order|] == order;
    ghost var plain := ops;
    ghost var all := ComputedOps(computedOrder, computed);
    for i := 0 to |computedOrder|
      invariant index.Valid()
      invariant ops == plain + all[..i]
      invariant deltas == Indexed(ops, start) && index.names == Register(ops, start)
    {
      var op := Op("@" + computedOrder[i], Some(computed[computedOrder[i]]));
      assert plain + all[..i] + [all[i]] == plain + all[..i + 1];
      deltas := PushChange(op, index, deltas, ops, start);
      ops := ops + [op];
    }
    assert all[..|computedOrder|] == all;
    delta := Join(RenderAll(Sort(deltas, ByIndex)), ',');
  }

  lemma RegisterNone(names: seq<string>, prev: Option<Labels>, cur: Labels)
    ensures Register([], names) == names && Indexed([], names) == [] && LabelOps([], prev, cur) == []
  {
  }

  // ----- decoding -----

  predicate Reserved(name: string) {
    name != "" && name[0] == '@'
  }

  function ResolveLabelName(raw: string, names: Option<seq<string>>): Result<string> {
    if names.Some? && ParseU64(raw).Some? then
      var idx := ParseU64(raw).value;
      if idx < |names.value| then Ok(names.value[idx]) else Err("Label index is out of range")
    else if Reserved(raw) then
      Err("Label names must not start with '@': reserved for computed labels")
    else Ok(raw)
  }

  /** The value at the front of `part` and the text left after it. */
  function NextValue(part: string): (r: Result<(string, string)>)
    ensures r.Ok? ==> |r.value.1| <= |part|
  {
    if part != "" && part[0] == '"' then
      match SplitOnce(part[1..], '"')
      case None => Err("Invalid batched header")
      case Some((value, rest)) => Ok((Trim(value), Trim(TrimStartMatches(rest, ','))))
    else
      match SplitOnce(part, ',')
      case Some((value, rest)) => Ok((Trim(value), Trim(rest)))
      case None => Ok((Trim(part), ""))
  }

  function MakeOp(key: string, value: string): Op {
    Op(key, if value == "" then None else Some(value))
  }

  /** The operations in a non-empty delta text. */
  function ParseOpsFrom(rest: string, names: Option<seq<string>>): Result<seq<Op>>
    decreases |rest|
  {
    match SplitOnce(rest, '=')
    case None => Err("Invalid batched header")
    case Some((rawKey, part)) =>
      var key :- ResolveLabelName(Trim(rawKey), names);
      var next :- NextValue(part);
      var op := MakeOp(key, next.0);
      if next.1 == "" then Ok([op])
      else
        var tail :- ParseOpsFrom(next.1, names);
        Ok([op] + tail)
  }

  function ParseOps(raw: string, names: Option<seq<string>>): Result<seq<Op>> {
    if Trim(raw) == "" then Ok([]) else ParseOpsFrom(Trim(raw), names)
  }

  function Chain(head: seq<Op>, r: Result<seq<Op>>): Result<seq<Op>> {
    if r.Ok? then Ok(head + r.value) else r
  }

  lemma ChainStep(head: seq<Op>, op: Op, r: Result<seq<Op>>)
    ensures Chain(head, Chain([op], r)) == Chain(head + [op], r)
  {
    if r.Ok? { assert head + ([op] + r.value) == (head + [op]) + r.value; }
  }

  /** The parser's loop: it terminates on every text. */
  method ParseLabelDeltaOps(raw: string, names: Option<seq<string>>) returns (r: Result<seq<Op>>)
    ensures r == ParseOps(raw, names)
  {
    hide IndexOf, Trim, Render, DigitsValue;
    var ops: seq<Op> := [];
    var rest := Trim(raw);
    if rest == "" {
      return Ok(ops);
    }
    assert Chain([], ParseOpsFrom(rest, names)) == ParseOpsFrom(rest, names) by {
      if ParseOpsFrom(rest, names).Ok? { assert [] + ParseOpsFrom(rest, names).value == ParseOpsFrom(rest, names).value; }
    }
    while true
      invariant ParseOps(raw, names) == Chain(ops, ParseOpsFrom(rest, names))
      decreases |rest|
    {
      match SplitOnce(rest, '=')
      case None =>
        return Err("Invalid batched header");
      case Some((rawKey, part)) =>
        var key := ResolveLabelName(Trim(rawKey), names);
        if key.Err? { return Err(key.reason); }
        var next := NextValue(part);
        if next.Err? { return Err(next.reason); }
        var op := MakeOp(key.value, next.value.0);
        ops := ops + [op];
        if next.value.1 == "" {
          return Ok(ops);
        }
        ChainStep(ops[..|ops| - 1], op, ParseOpsFrom(next.value.1, names));
        assert ops[..|ops| - 1] + [op] == ops;
        rest := next.value.1;
    }
  }

  function ApplyOp(labels: Labels, op: Op): Labels {
    match op.value
    case Some(v) => labels[op.key := v]
    case None => labels - {op.key}
  }

  /** `apply_label_delta` after parsing */
  function ApplyOps(labels: Labels, ops: seq<Op>): Labels
    decreases |ops|
  {
    if ops == [] then labels else ApplyOps(ApplyOp(labels, ops[0]), ops[1..])
  }

  // ----- the text of a delta parses back to its operations -----

  /** The label values that come back from the parser when they are formatted. */
  predicate ValueParses(v: string) {
    && v != "" && Trimmed(v)
    && (if ',' in v then '"' !in v else v[0] != '"')
  }

  /** The label values that survive being sent: they must be text for a header, too. */
  predicate ValueSurvives(v: string) {
    ValueParses(v) && IsHeaderText(v)
  }

  predicate OpParses(value: Option<string>) {
    value.Some? ==> ValueParses(value.value)
  }

  function ValueOr(value: Option<string>): string {
    if value.Some? then value.value else ""
  }

  lemma NextValueLast(value: Option<string>)
    requires OpParses(value)
    ensures NextValue(ValueText(value)) == Ok((ValueOr(value), ""))
  {
    hide IndexOf, Trim, Render, DigitsValue;
    if value.Some? {
      var v := value.value;
      if ',' in v {
        var t := FormatValue(v);
        assert t[1..] == v + ['"'] + "";
        SplitOnceAt(v, '"', "");
      }
    }
  }

  lemma NextQuoted(v: string, rest: string)
    requires Trimmed(v) && '"' !in v
    requires rest != "" && Trimmed(rest) && rest[0] != ','
    ensures NextValue("\"" + v + "\"," + rest) == Ok((v, rest))
  {
    hide IndexOf, Trim;
    var t := "\"" + v + "\"," + rest;
    var after := [','] + rest;
    assert t[1..] == v + ['"'] + after;
    SplitOnceAt(v, '"', after);
    assert after[1..] == rest;
    assert TrimStartMatches(after, ',') == rest;
  }

  lemma NextPlain(v: string, rest: string)
    requires Trimmed(v) && ',' !in v && (v == "" || v[0] != '"')
    requires Trimmed(rest)
    ensures NextValue(v + "," + rest) == Ok((v, rest))
  {
    hide IndexOf, Trim, TrimStartMatches;
    var t := v + "," + rest;
    assert t == v + [','] + rest;
    assert t[0] != '"';
    SplitOnceAt(v, ',', rest);
  }

  lemma NextValueMore(value: Option<string>, rest: string)
    requires OpParses(value)
    requires rest != "" && Trimmed(rest) && rest[0] != ','
    ensures NextValue(ValueText(value) + "," + rest) == Ok((ValueOr(value), rest))
  {
    hide NextValue;
    if value.Some? && ',' in value.value {
      var v := value.value;
      NextQuoted(v, rest);
      assert ValueText(value) + "," + rest == "\"" + v + "\"," + rest;
    } else {
      NextPlain(ValueOr(value), rest);
    }
  }

  lemma ResolveIndex(idx: nat, names: seq<string>)
    requires idx < |names| <= U64_MAX
    ensures ResolveLabelName(Trim(Render(idx)), Some(names)) == Ok(names[idx])
  {
    hide IndexOf, Trim, Render, DigitsValue;
    ParseOfRender(idx);
  }

  function Named(changes: seq<Change>, names: seq<string>): (r: seq<Op>)
    requires forall i :: 0 <= i < |changes| ==> changes[i].idx < |names|
    ensures |r| == |changes|
    ensures forall i :: 0 <= i < |r| ==> r[i] == Op(names[changes[i].idx], changes[i].value)
  {
    if changes == [] then []
    else [Op(names[changes[0].idx], changes[0].value)] + Named(changes[1..], names)
  }

  ghost predicate Sendable(changes: seq<Change>, names: seq<string>) {
    && |names| <= U64_MAX
    && (forall i :: 0 <= i < |changes| ==> changes[i].idx < |names|)
    && (forall i :: 0 <= i < |changes| ==> OpParses(changes[i].value))
  }

  lemma SplitAtEquals(idx: nat, tail: string)
    ensures SplitOnce(Render(idx) + "=" + tail, '=') == Some((Render(idx), tail))
  {
    hide IndexOf, Trim, Render, DigitsValue;
    assert forall i :: 0 <= i < |Render(idx)| ==> IsDigit(Render(idx)[i]);
    assert '=' !in Render(idx);
    SplitOnceAt(Render(idx), '=', tail);
  }

  lemma RenderedEnds(c: Change)
    requires OpParses(c.value)
    ensures RenderChange(c) != "" && IsDigit(RenderChange(c)[0]) && Trimmed(RenderChange(c))
  {
    var s := RenderChange(c);
    assert s[0] == Render(c.idx)[0];
    assert s[|s| - 1] == '=' || s[|s| - 1] == '"' || s[|s| - 1] == ValueOr(c.value)[|ValueOr(c.value)| - 1];
  }

  lemma RenderAllTail(changes: seq<Change>)
    requires changes != []
    ensures RenderAll(changes)[1..] == RenderAll(changes[1..])
  {
  }

  lemma ParseLastChange(c: Change, names: seq<string>)
    requires c.idx < |names| <= U64_MAX && OpParses(c.value)
    ensures ParseOpsFrom(RenderChange(c), Some(names)) == Ok([Op(names[c.idx], c.value)])
  {
    hide NextValue, ResolveLabelName, SplitOnce, Trim, Render, ValueText;
    ResolveIndex(c.idx, names);
    SplitAtEquals(c.idx, ValueText(c.value));
    NextValueLast(c.value);
  }

  lemma Regroup(a: string, b: string, c: string, d: string)
    ensures a + b + c + d == a + (b + c + d)
  {
  }

  lemma ParseChangeThen(c: Change, tail: string, names: seq<string>)
    requires c.idx < |names| <= U64_MAX && OpParses(c.value)
    requires tail != "" && Trimmed(tail) && tail[0] != ','
    requires ParseOpsFrom(tail, Some(names)).Ok?
    ensures ParseOpsFrom(RenderChange(c) + [','] + tail, Some(names))
            == Ok([Op(names[c.idx], c.value)] + ParseOpsFrom(tail, Some(names)).value)
  {
    hide NextValue, ResolveLabelName, SplitOnce, Trim, Render, ValueText;
    var part := ValueText(c.value) + "," + tail;
    Regroup(Render(c.idx) + "=", ValueText(c.value), ",", tail);
    ResolveIndex(c.idx, names);
    SplitAtEquals(c.idx, part);
    NextValueMore(c.value, tail);
  }

  /** A rendered delta is trimmed, starts with a digit and parses to the named operations. */
  lemma {:induction false} ParseRendered(changes: seq<Change>, names: seq<string>)
    requires changes != [] && Sendable(changes, names)
    ensures var text := Join(RenderAll(changes), ',');
            && text != "" && IsDigit(text[0]) && Trimmed(text)
            && ParseOpsFrom(text, Some(names)) == Ok(Named(changes, names))
    decreases |changes|
  {
    hide ParseOpsFrom, RenderChange;
    var c := changes[0];
    RenderedEnds(c);
    if |changes| == 1 {
      ParseLastChange(c, names);
      assert [Op(names[c.idx], c.value)] == Named(changes, names);
    } else {
      var tail := Join(RenderAll(changes[1..]), ',');
      ParseRendered(changes[1..], names);
      RenderAllTail(changes);
      var text := Join(RenderAll(changes), ',');
      assert text == RenderChange(c) + [','] + tail;
      ParseChangeThen(c, tail, names);
      assert text[0] == RenderChange(c)[0] && text[|text| - 1] == tail[|tail| - 1];
      assert [Op(names[c.idx], c.value)] + Named(changes[1..], names) == Named(changes, names);
    }
  }

  lemma ChangeParsesIff(idx: nat, v: string, names: seq<string>)
    requires idx < |names| <= U64_MAX
    ensures ParseOps(RenderChange(Change(idx, Some(v))), Some(names)) == Ok([Op(names[idx], Some(v))])
            <==> ValueParses(v)
  {
    var c := Change(idx, Some(v));
    var text := RenderChange(c);
    if ValueParses(v) {
      var changes := [c];
      assert RenderAll(changes) == [text];
      ParseRendered(changes, names);
      assert Named(changes, names) == [Op(names[idx], Some(v))];
    } else {
      TextFirstOp(idx, ValueText(Some(v)), names);
      FirstValueDiffers(v);
    }
  }

  /** A change is text for a header exactly when its value is. */
  lemma ChangeIsTextIff(c: Change)
    ensures IsHeaderText(RenderChange(c)) <==> IsHeaderText(ValueOr(c.value))
  {
    hide IsHeaderText, Render;
    var v := ValueOr(c.value);
    DigitsAreText(Render(c.idx));
    OneText('=');
    OneText('"');
    TextAppend(Render(c.idx), "=");
    TextAppend(Render(c.idx) + "=", ValueText(c.value));
    TextAppend("\"", v);
    TextAppend("\"" + v, "\"");
    if c.value.None? { NoText(v); }
  }

  /**
    A label value comes back from a header, which has to be made and read as text, exactly when
    it is printable ASCII, non-empty and trimmed, and its quotes and commas do not clash.
  */
  lemma ValueRoundTripIff(idx: nat, v: string, names: seq<string>)
    requires idx < |names| <= U64_MAX
    ensures var text := RenderChange(Change(idx, Some(v)));
            IsHeaderText(text) && ParseOps(text, Some(names)) == Ok([Op(names[idx], Some(v))])
            <==> ValueSurvives(v)
  {
    hide ParseOps, RenderChange, IsHeaderText, ValueParses;
    ChangeParsesIff(idx, v, names);
    ChangeIsTextIff(Change(idx, Some(v)));
  }

  lemma TextFirstOp(idx: nat, part: string, names: seq<string>)
    requires idx < |names| <= U64_MAX
    ensures var r := ParseOps(Render(idx) + "=" + part, Some(names));
            r.Ok? ==> |r.value| >= 1 && NextValue(TrimEnd(part)).Ok?
                      && r.value[0] == MakeOp(names[idx], NextValue(TrimEnd(part)).value.0)
  {
    hide NextValue, ResolveLabelName, SplitOnce, Trim, TrimEnd, Render;
    TrimAfterEquals(Render(idx), part);
    ResolveIndex(idx, names);
    SplitAtEquals(idx, TrimEnd(part));
  }

  lemma TrimAfterEquals(head: string, part: string)
    requires head != "" && !IsSpace(head[0])
    ensures Trim(head + "=" + part) == head + "=" + TrimEnd(part)
  {
    var s := head + "=" + part;
    assert s[0] == head[0];
    TrimEndAppend(head + "=", part);
  }

  lemma {:induction false} TrimEndAppend(head: string, part: string)
    requires head != "" && !IsSpace(head[|head| - 1])
    ensures TrimEnd(head + part) == head + TrimEnd(part)
    decreases |part|
  {
    var s := head + part;
    if part == "" {
      assert s == head;
    } else {
      assert s[|s| - 1] == part[|part| - 1];
      if IsSpace(part[|part| - 1]) {
        assert s[..|s| - 1] == head + part[..|part| - 1];
        TrimEndAppend(head, part[..|part| - 1]);
      }
    }
  }

  /** A quoted value that itself holds a quote, or white space at an end, is cut short. */
  lemma QuotedDiffers(v: string)
    requires '"' in v || !Trimmed(v)
    ensures var next := NextValue("\"" + v + "\"");
            next.Ok? ==> next.value.0 != v
  {
    hide IndexOf, Trim, TrimStartMatches;
    var t := "\"" + v + "\"";
    assert t[1..] == v + ['"'] + "";
    if '"' in v {
      var (a, b) := SplitOnce(t[1..], '"').value;
      var i :| 0 <= i < |v| && v[i] == '"';
      assert t[1..][i] == '"';
      assert forall k :: 0 <= k < |a| ==> t[1..][k] == a[k];
      assert |a| <= i;
    } else {
      SplitOnceAt(v, '"', "");
    }
  }

  lemma FirstValueDiffers(v: string)
    requires !ValueParses(v)
    ensures var next := NextValue(TrimEnd(FormatValue(v)));
            next.Ok? ==> next.value.0 == "" || next.value.0 != v
  {
    hide IndexOf, Trim, TrimEnd;
    var t := TrimEnd(FormatValue(v));
    if ',' in v {
      assert t == FormatValue(v);
      hide NextValue;
      QuotedDiffers(v);
    } else if v != "" {
      assert ',' !in t;
    }
  }
}
