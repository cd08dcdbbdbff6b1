/**
  What label texts mean: the texts that the parsers accept, written out as a list of items with
  white space wherever it may stand, and the labels that they are read as.
*/
module LabelText {
  import opened Common
  import opened Text
  import opened LabelDelta
  import opened RecordHeaders
  import opened BatchV1

  /** A key and a value as written: white space on either side of both, quotes or none, and the commas behind. */
  datatype Item = Item(before: string, key: string, after: string,
                       lead: string, value: string, trail: string, quoted: bool, commas: nat)

  function Commas(n: nat): string {
    seq(n, _ => ',')
  }

  function KeyText(w: Item): string {
    w.before + w.key + w.after
  }

  function Inner(w: Item): string {
    w.lead + w.value + w.trail
  }

  function Behind(w: Item): string {
    (if w.quoted then ['"'] + Inner(w) + ['"'] else Inner(w)) + Commas(w.commas)
  }

  function ItemText(w: Item): string {
    KeyText(w) + ['='] + Behind(w)
  }

  function TextOf(items: seq<Item>, tail: string): string {
    if items == [] then tail else ItemText(items[0]) + TextOf(items[1..], tail)
  }

  ghost predicate Written(w: Item) {
    && AllSpace(w.before) && AllSpace(w.after) && AllSpace(w.lead) && AllSpace(w.trail)
    && '=' !in w.key && Trimmed(w.key) && Trimmed(w.value)
    && (if w.quoted then '"' !in w.value else ',' !in w.value && (w.lead == "" && w.value != "" ==> w.value[0] != '"'))
  }

  /**
    An item with the text behind it. A quoted value may have any number of commas behind it, also
    none; a plain one has exactly one, unless nothing but white space follows.
  */
  ghost predicate Leads(w: Item, rest: string) {
    && Written(w)
    && (if w.quoted then rest == "" || rest[0] != ',' else w.commas == 1 || (w.commas == 0 && AllSpace(rest)))
  }

  ghost predicate WellWritten(items: seq<Item>, tail: string) {
    items != [] ==> Leads(items[0], TextOf(items[1..], tail)) && WellWritten(items[1..], tail)
  }

  // ----- reading one item -----

  lemma {:induction false} CommasTrimmed(n: nat, rest: string)
    requires rest == "" || rest[0] != ','
    ensures TrimStartMatches(Commas(n) + rest, ',') == rest
  {
    var s := Commas(n) + rest;
    if n == 0 {
      assert s == rest;
    } else {
      assert s[0] == ',' && s[1..] == Commas(n - 1) + rest;
      CommasTrimmed(n - 1, rest);
    }
  }

  lemma ReadsQuoted(w: Item, rest: string)
    requires Leads(w, rest) && w.quoted
    ensures NextValue(Behind(w) + rest) == Ok((w.value, Trim(rest)))
  {
    hide Trim, SplitOnce, TrimStartMatches;
    var part := Behind(w) + rest;
    assert part[0] == '"' && part[1..] == Inner(w) + ['"'] + (Commas(w.commas) + rest);
    NotIn(w.lead, w.value, w.trail, '"');
    SplitOnceAt(Inner(w), '"', Commas(w.commas) + rest);
    TrimBoth(w.lead, w.value, w.trail);
    CommasTrimmed(w.commas, rest);
  }

  lemma NoQuoteFirst(w: Item, rest: string)
    requires Leads(w, rest) && !w.quoted
    ensures var part := Behind(w) + rest; part == "" || part[0] != '"'
  {
    var part := Behind(w) + rest;
    if w.lead != "" {
      assert part[0] == w.lead[0] && IsSpace(w.lead[0]);
    } else if w.value != "" {
      assert part[0] == w.value[0];
    } else if w.trail != "" {
      assert part[0] == w.trail[0] && IsSpace(w.trail[0]);
    } else if w.commas == 1 {
      assert part[0] == ',';
    } else if rest != "" {
      assert part == rest && IsSpace(rest[0]);
    }
  }

  lemma ReadsPlain(w: Item, rest: string)
    requires Leads(w, rest) && !w.quoted
    ensures NextValue(Behind(w) + rest) == Ok((w.value, Trim(rest)))
  {
    hide Trim, SplitOnce, TrimStartMatches;
    var part := Behind(w) + rest;
    NoQuoteFirst(w, rest);
    NotIn(w.lead, w.value, w.trail, ',');
    TrimBoth(w.lead, w.value, w.trail);
    if w.commas == 1 {
      assert part == Inner(w) + [','] + rest;
      SplitOnceAt(Inner(w), ',', rest);
    } else {
      assert part == Inner(w) + rest;
      NoneInSpace(rest, ',');
      TrimPad(Inner(w), rest);
      BlankRest(rest);
    }
  }

  /** Key, value and the rest are told apart. */
  lemma ReadsItem(w: Item, rest: string)
    requires Leads(w, rest)
    ensures SplitOnce(ItemText(w) + rest, '=') == Some((KeyText(w), Behind(w) + rest))
    ensures Trim(KeyText(w)) == w.key
    ensures NextValue(Behind(w) + rest) == Ok((w.value, Trim(rest)))
  {
    hide Trim, SplitOnce, NextValue, Behind;
    assert ItemText(w) + rest == KeyText(w) + ['='] + (Behind(w) + rest);
    NotIn(w.before, w.key, w.after, '=');
    SplitOnceAt(KeyText(w), '=', Behind(w) + rest);
    TrimBoth(w.before, w.key, w.after);
    if w.quoted { ReadsQuoted(w, rest); } else { ReadsPlain(w, rest); }
  }

  // ----- every text that is read is a list of items -----

  lemma {:induction false} CommasTaken(s: string) returns (n: nat, rest: string)
    ensures s == Commas(n) + rest && (rest == "" || rest[0] != ',')
  {
    if s == "" || s[0] != ',' {
      n, rest := 0, s;
      assert Commas(0) + s == s;
    } else {
      n, rest := CommasTaken(s[1..]);
      assert Commas(n + 1) == [','] + Commas(n);
      n := n + 1;
    }
  }

  lemma WrittenQuoted(part: string) returns (w: Item, rest: string)
    requires part != "" && part[0] == '"' && NextValue(part).Ok?
    ensures Leads(w, rest) && part == Behind(w) + rest && KeyText(w) == ""
  {
    hide Trim, SplitOnce, TrimStartMatches;
    var (v, more) := SplitOnce(part[1..], '"').value;
    var lead, value, trail := Pared(v);
    var n: nat;
    n, rest := CommasTaken(more);
    w := Item("", "", "", lead, value, trail, true, n);
    assert forall c :: c in value ==> c in v;
    assert part == ['"'] + part[1..];
    assert ['"'] + (v + ['"'] + (Commas(n) + rest)) == (['"'] + v + ['"'] + Commas(n)) + rest;
  }

  lemma WrittenPlain(part: string) returns (w: Item, rest: string)
    requires (part == "" || part[0] != '"') && NextValue(part).Ok?
    ensures Leads(w, rest) && part == Behind(w) + rest && KeyText(w) == ""
  {
    hide Trim, SplitOnce, TrimStartMatches;
    var split := SplitOnce(part, ',');
    var v := if split.Some? then split.value.0 else part;
    var lead, value, trail := Pared(v);
    assert forall c :: c in value ==> c in v;
    if lead == "" && value != "" { assert part[0] == value[0]; }
    if split.Some? {
      rest := split.value.1;
      w := Item("", "", "", lead, value, trail, false, 1);
      assert Commas(1) == [','];
    } else {
      rest := "";
      w := Item("", "", "", lead, value, trail, false, 0);
      assert Behind(w) + "" == v;
    }
  }

  /** The first item of a text in which a key ends and whose value can be read. */
  lemma FirstItem(s: string) returns (w: Item, rest: string)
    requires '=' in s && NextValue(SplitOnce(s, '=').value.1).Ok?
    ensures Leads(w, rest) && s == ItemText(w) + rest && |rest| < |s|
  {
    hide Trim, SplitOnce, NextValue;
    var (k, part) := SplitOnce(s, '=').value;
    var v: Item;
    if part != "" && part[0] == '"' { v, rest := WrittenQuoted(part); } else { v, rest := WrittenPlain(part); }
    var before, key, after := Pared(k);
    assert forall c :: c in key ==> c in k;
    w := v.(before := before, key := key, after := after);
    assert Behind(w) == Behind(v) && KeyText(w) == k;
    assert s == k + ['='] + part;
    assert k + ['='] + (Behind(w) + rest) == (k + ['='] + Behind(w)) + rest;
  }

  // ----- version 2 -----

  /** The operations that the items stand for, or the first key that is refused. */
  function NamedOps(items: seq<Item>, names: Option<seq<string>>): Result<seq<Op>> {
    if items == [] then Ok([])
    else
      var key :- ResolveLabelName(items[0].key, names);
      var rest :- NamedOps(items[1..], names);
      Ok([Op(key, if items[0].value == "" then None else Some(items[0].value))] + rest)
  }

  /** Trimming first makes no difference to a text with a key in it. */
  lemma OpsTrimmed(s: string, names: Option<seq<string>>)
    requires '=' in s
    ensures ParseOps(s, names) == ParseOpsFrom(s, names)
  {
    hide Trim, ParseOpsFrom;
    var u, m, w := Pared(s);
    TrimBoth(u, m, w);
    NoneInSpace(u, '=');
    NoneInSpace(w, '=');
    OpsPadded(u, m, w, names);
    assert u + m + w == u + (m + w);
  }

  lemma OpsPadded(u: string, m: string, w: string, names: Option<seq<string>>)
    requires AllSpace(u) && AllSpace(w) && '=' in m
    ensures ParseOpsFrom(u + (m + w), names) == ParseOpsFrom(m, names)
  {
    hide Trim, SplitOnce, NextValue, ResolveLabelName;
    SplitOncePad(m, w, '=');
    NoneInSpace(u, '=');
    var (key, part) := SplitOnce(m, '=').value;
    assert u + (m + w) == (u + key) + ['='] + (part + w);
    SplitOnceAt(u + key, '=', part + w);
    NextValuePad(part, w);
    TrimLead(u, key);
  }

  lemma HasKey(w: Item, rest: string)
    ensures '=' in ItemText(w) + rest
  {
    assert (ItemText(w) + rest)[|KeyText(w)|] == '=';
  }

  /** However a list of items is written, version 2 reads it as its operations. */
  lemma {:induction false} OpsOfWritten(items: seq<Item>, tail: string, names: Option<seq<string>>)
    requires WellWritten(items, tail) && AllSpace(tail)
    ensures ParseOps(TextOf(items, tail), names) == NamedOps(items, names)
  {
    hide Trim, SplitOnce, NextValue, ResolveLabelName, ItemText, Leads, Behind, KeyText;
    if items == [] {
      BlankRest(tail);
    } else {
      var w, rest := items[0], TextOf(items[1..], tail);
      OpsOfWritten(items[1..], tail, names);
      HasKey(w, rest);
      OpsTrimmed(ItemText(w) + rest, names);
      ReadsItem(w, rest);
      if Trim(rest) == "" {
        NothingBehind(items[1..], tail);
        assert forall op: Op :: [op] + [] == [op];
      }
    }
  }

  /** A blank text has no items in it. */
  lemma NothingBehind(items: seq<Item>, tail: string)
    requires Trim(TextOf(items, tail)) == ""
    ensures items == []
  {
    hide Trim, ItemText;
    if items != [] {
      HasKey(items[0], TextOf(items[1..], tail));
      Blank(TextOf(items, tail));
      NoneInSpace(TextOf(items, tail), '=');
      assert false;
    }
  }

  /** Every text that version 2 accepts is written as such a list. */
  lemma {:induction false} AcceptedIsWritten(raw: string, names: Option<seq<string>>) returns (items: seq<Item>, tail: string)
    requires ParseOps(raw, names).Ok?
    ensures WellWritten(items, tail) && AllSpace(tail) && TextOf(items, tail) == raw
    decreases |raw|
  {
    hide Trim, SplitOnce, NextValue, ResolveLabelName, ItemText, Leads;
    if Trim(raw) == "" {
      Blank(raw);
      items, tail := [], raw;
    } else {
      KeyWithin(raw);
      OpsTrimmed(raw, names);
      var w, rest := FirstItem(raw);
      ReadsItem(w, rest);
      var more: seq<Item>;
      more, tail := AcceptedIsWritten(rest, names);
      items := [w] + more;
      assert items[1..] == more;
    }
  }

  lemma KeyWithin(raw: string)
    ensures '=' in Trim(raw) ==> '=' in raw
  {
    hide Trim;
    var u, x, w := Pared(raw);
    TrimBoth(u, x, w);
  }

  /** The texts that version 2 accepts are exactly these lists with keys that it does not refuse. */
  lemma AcceptedIff(raw: string, names: Option<seq<string>>)
    ensures ParseOps(raw, names).Ok? <==>
              exists items, tail :: WellWritten(items, tail) && AllSpace(tail) && TextOf(items, tail) == raw && NamedOps(items, names).Ok?
  {
    hide ParseOps, NamedOps, WellWritten, TextOf;
    if ParseOps(raw, names).Ok? {
      var items, tail := AcceptedIsWritten(raw, names);
      OpsOfWritten(items, tail, names);
    }
    forall items, tail | WellWritten(items, tail) && AllSpace(tail) && TextOf(items, tail) == raw && NamedOps(items, names).Ok?
      ensures ParseOps(raw, names).Ok?
    {
      OpsOfWritten(items, tail, names);
    }
  }

  /** The key is the number of a name in the table. */
  ghost predicate Indexes(key: string, names: Option<seq<string>>, name: string) {
    names.Some? && exists i: nat :: Denotes(key, i) && i < |names.value| && names.value[i] == name
  }

  /** The key is no number, or there is no table for it to index. */
  ghost predicate IsName(key: string, names: Option<seq<string>>) {
    names.None? || forall i: nat :: i <= U64_MAX ==> !Denotes(key, i)
  }

  /** With a table a number stands for the name at its index; any other key stands for itself unless it starts with `@`. */
  lemma ResolvesIff(key: string, names: Option<seq<string>>, name: string)
    requires names.Some? ==> |names.value| <= U64_MAX
    ensures ResolveLabelName(key, names) == Ok(name)
            <==> Indexes(key, names, name) || (IsName(key, names) && name == key && !StartsWith(key, "@"))
  {
    hide ParseU64, Denotes;
    if names.Some? {
      forall i: nat
        ensures ParseU64(key) == Some(i) <==> i <= U64_MAX && Denotes(key, i)
      {
        ParseU64Iff(key, i);
      }
    }
    assert StartsWith(key, "@") <==> Reserved(key);
  }

  // ----- version 1 -----

  /** The labels that the items stand for: a later value replaces an earlier one. */
  function Pairs(labels: Labels, items: seq<Item>): Labels
    decreases |items|
  {
    if items == [] then labels else Pairs(labels[items[0].key := items[0].value], items[1..])
  }

  /** A key that no item has keeps its value. */
  lemma {:induction false} Unmentioned(labels: Labels, items: seq<Item>, k: string)
    requires forall i :: 0 <= i < |items| ==> items[i].key != k
    ensures Lookup(Pairs(labels, items), k) == Lookup(labels, k)
    decreases |items|
  {
    if items != [] { Unmentioned(labels[items[0].key := items[0].value], items[1..], k); }
  }

  /** The last item with a key decides. */
  lemma {:induction false} LastDecides(labels: Labels, items: seq<Item>, i: nat)
    requires i < |items| && forall j :: i < j < |items| ==> items[j].key != items[i].key
    ensures Lookup(Pairs(labels, items), items[i].key) == Some(items[i].value)
    decreases |items|
  {
    var next := labels[items[0].key := items[0].value];
    if i == 0 {
      Unmentioned(next, items[1..], items[0].key);
    } else {
      LastDecides(next, items[1..], i - 1);
    }
  }

  /** However a list of items is written, and whatever without an equals sign stands behind it, version 1 reads its labels. */
  lemma {:induction false} LabelsOfWritten(items: seq<Item>, tail: string, labels: Labels)
    requires WellWritten(items, tail) && '=' !in tail
    ensures LabelsFrom(TextOf(items, tail), labels) == Ok(Pairs(labels, items))
    decreases |items|
  {
    hide Trim, SplitOnce, NextValue, ItemText, Leads, Behind, KeyText;
    if items != [] {
      var w, rest := items[0], TextOf(items[1..], tail);
      var next := labels[w.key := w.value];
      LabelsOfWritten(items[1..], tail, next);
      ReadsItem(w, rest);
      LabelsTrimmed(rest, next);
    }
  }

  /** Every text that version 1 accepts is written as such a list. */
  lemma {:induction false} ReadIsWritten(text: string, labels: Labels) returns (items: seq<Item>, tail: string)
    requires LabelsFrom(text, labels).Ok?
    ensures WellWritten(items, tail) && '=' !in tail && TextOf(items, tail) == text
    decreases |text|
  {
    hide Trim, SplitOnce, NextValue, ItemText, Leads;
    if '=' !in text {
      items, tail := [], text;
    } else {
      var w, rest := FirstItem(text);
      ReadsItem(w, rest);
      LabelsTrimmed(rest, labels[w.key := w.value]);
      var more: seq<Item>;
      more, tail := ReadIsWritten(rest, labels[w.key := w.value]);
      items := [w] + more;
      assert items[1..] == more;
    }
  }

  /** Version 1 accepts exactly these texts; what it refuses is a quote that is not closed. */
  lemma ReadIff(text: string)
    ensures LabelsFrom(text, map[]).Ok? <==> exists items, tail :: WellWritten(items, tail) && '=' !in tail && TextOf(items, tail) == text
  {
    hide LabelsFrom, WellWritten, TextOf;
    if LabelsFrom(text, map[]).Ok? {
      var items, tail := ReadIsWritten(text, map[]);
    }
    forall items, tail | WellWritten(items, tail) && '=' !in tail && TextOf(items, tail) == text
      ensures LabelsFrom(text, map[]).Ok?
    {
      LabelsOfWritten(items, tail, map[]);
    }
  }

  // ----- whole headers -----

  /** A length and a content type with white space on either side. */
  datatype Front = Front(lengthLead: string, length: nat, lengthTrail: string, typeLead: string, contentType: string, typeTrail: string)

  ghost predicate FrontWritten(f: Front) {
    && AllSpace(f.lengthLead) && AllSpace(f.lengthTrail) && AllSpace(f.typeLead) && AllSpace(f.typeTrail)
    && f.length <= U64_MAX && Trimmed(f.contentType) && ',' !in f.contentType
  }

  function TypeText(f: Front): string {
    f.typeLead + f.contentType + f.typeTrail
  }

  function WholeHeader(f: Front, labels: string): string {
    (f.lengthLead + Render(f.length) + f.lengthTrail) + [','] + (TypeText(f) + [','] + labels)
  }

  lemma ReadsFront(f: Front, labels: string)
    requires FrontWritten(f)
    ensures var rest := TypeText(f) + [','] + labels;
            SplitOnce(WholeHeader(f, labels), ',') == Some((f.lengthLead + Render(f.length) + f.lengthTrail, rest))
            && SplitOnce(rest, ',') == Some((TypeText(f), labels))
    ensures ParseU64(Trim(f.lengthLead + Render(f.length) + f.lengthTrail)) == Some(f.length)
    ensures Trim(TypeText(f)) == f.contentType
  {
    hide Trim, SplitOnce, Render, ParseU64;
    NoCommaInNumber(f.length);
    NotIn(f.lengthLead, Render(f.length), f.lengthTrail, ',');
    NotIn(f.typeLead, f.contentType, f.typeTrail, ',');
    SplitOnceAt(f.lengthLead + Render(f.length) + f.lengthTrail, ',', TypeText(f) + [','] + labels);
    SplitOnceAt(TypeText(f), ',', labels);
    TrimBoth(f.lengthLead, Render(f.length), f.lengthTrail);
    TrimBoth(f.typeLead, f.contentType, f.typeTrail);
    ParseOfRender(f.length);
  }

  /** Version 1 reads a whole header, white space and all; only an empty type stands for the default. */
  lemma HeaderV1(f: Front, items: seq<Item>, tail: string)
    requires FrontWritten(f) && WellWritten(items, tail) && '=' !in tail
    ensures ParseHeader(WholeHeader(f, TextOf(items, tail)))
            == Ok(RecordHeader(f.length, if TypeText(f) == "" then "application/octet-stream" else f.contentType, Pairs(map[], items)))
  {
    hide Trim, SplitOnce, ParseU64, LabelsFrom, WholeHeader, TextOf, Pairs, WellWritten, TypeText;
    ReadsFront(f, TextOf(items, tail));
    LabelsOfWritten(items, tail, map[]);
  }

  /** Version 2 does, too; a blank type is that of the previous record or the default. */
  lemma HeaderV2(f: Front, items: seq<Item>, tail: string, previous: Option<RecordHeader>, names: Option<seq<string>>)
    requires FrontWritten(f) && WellWritten(items, tail) && AllSpace(tail) && NamedOps(items, names).Ok?
    ensures var contentType := if f.contentType != "" then f.contentType
                               else if previous.Some? then previous.value.contentType else "application/octet-stream";
            var base := if previous.Some? then previous.value.labels else map[];
            ParseRecordHeader(WholeHeader(f, TextOf(items, tail)), previous, names)
            == Ok(RecordHeader(f.length, contentType, ApplyOps(base, NamedOps(items, names).value)))
  {
    hide Trim, SplitOnce, ParseU64, ParseOps, WholeHeader, TextOf, NamedOps, WellWritten, TypeText, ApplyOps;
    ReadsFront(f, TextOf(items, tail));
    OpsOfWritten(items, tail, names);
  }
}
