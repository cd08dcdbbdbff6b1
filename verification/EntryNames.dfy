/**
  Percent-encoding of entry and label names for header values
  (section 2.1 of RFC 3986 over the `tchar` set of section 5.6.2 of RFC 9110).
*/
module EntryNames {
  import opened Common
  import opened Text

  /** A byte of a UTF-8 string */
  predicate IsByte(c: char) {
    c as int < 256
  }

  predicate IsBytes(s: string) {
    forall i :: 0 <= i < |s| ==> IsByte(s[i])
  }

  predicate IsTchar(c: char) {
    || '0' <= c <= '9' || 'A' <= c <= 'Z' || 'a' <= c <= 'z'
    || c == '!' || c == '#' || c == '$' || c == '%' || c == '&' || c == '\'' || c == '*' || c == '+'
    || c == '-' || c == '.' || c == '^' || c == '_' || c == '`' || c == '|' || c == '~'
  }

  /** The digits, the letters and fifteen marks, by their ASCII codes. */
  lemma TcharIff(c: char)
    ensures IsTchar(c) <==> 0x30 <= c as int <= 0x39 || 0x41 <= c as int <= 0x5A || 0x61 <= c as int <= 0x7A || c in "!#$%&'*+-.^_`|~"
  {
    var marks := "!#$%&'*+-.^_`|~";
    assert c in marks <==> exists i :: 0 <= i < |marks| && marks[i] == c;
    assert marks[0] == '!' && marks[1] == '#' && marks[2] == '$' && marks[3] == '%' && marks[4] == '&' && marks[5] == '\'' && marks[6] == '*'
           && marks[7] == '+' && marks[8] == '-' && marks[9] == '.' && marks[10] == '^' && marks[11] == '_' && marks[12] == '`'
           && marks[13] == '|' && marks[14] == '~';
  }

  predicate AllTchar(s: string) {
    forall i :: 0 <= i < |s| ==> IsTchar(s[i])
  }

  function HexDigit(d: nat): (c: char)
    requires d < 16
    ensures HexValue(c) == Some(d) && IsTchar(c) && c != '%'
  {
    "0123456789ABCDEF"[d]
  }

  /** `char::to_digit(16)` */
  function HexValue(c: char): (d: Option<nat>)
    ensures d.Some? ==> d.value < 16
  {
    if '0' <= c <= '9' then Some(c as int - '0' as int)
    else if 'a' <= c <= 'f' then Some(c as int - 'a' as int + 10)
    else if 'A' <= c <= 'F' then Some(c as int - 'A' as int + 10)
    else None
  }

  /** One byte of an encoded name: itself when it is a tchar, otherwise `%XX`. */
  function EncodeByte(c: char): (r: string)
    requires IsByte(c)
    ensures r != "" && AllTchar(r)
  {
    if IsTchar(c) then [c] else ['%', HexDigit(c as int / 16), HexDigit(c as int % 16)]
  }

  function EncodeName(name: string): (r: string)
    requires IsBytes(name)
    ensures AllTchar(r)
    ensures r == "" <==> name == ""
  {
    if name == [] then "" else EncodeByte(name[0]) + EncodeName(name[1..])
  }

  method EncodeEntryName(entry: string) returns (encoded: string)
    requires IsBytes(entry)
    ensures encoded == EncodeName(entry)
  {
    hide EncodeByte;
    encoded := "";
    for i := 0 to |entry|
      invariant encoded + EncodeName(entry[i..]) == EncodeName(entry)
    {
      assert entry[i..][1..] == entry[i + 1..];
      encoded := encoded + EncodeByte(entry[i]);
    }
    assert entry[|entry|..] == [];
  }

  function DecodeName(encoded: string): Result<string>
    decreases |encoded|
  {
    if encoded == [] then Ok("")
    else if encoded[0] == '%' then
      if |encoded| < 3 then Err("Invalid entry encoding in header name")
      else if HexValue(encoded[1]).None? || HexValue(encoded[2]).None? then
        Err("Invalid entry encoding in header name")
      else
        var rest :- DecodeName(encoded[3..]);
        Ok([(HexValue(encoded[1]).value * 16 + HexValue(encoded[2]).value) as char] + rest)
    else
      var rest :- DecodeName(encoded[1..]);
      Ok([encoded[0]] + rest)
  }

  // ----- the texts that can be decoded -----

  /** A character that stands for itself, or a byte written as two hexadecimal digits of either case. */
  datatype Token = Plain(c: char) | Escape(high: char, low: char)

  predicate IsHex(c: char, d: nat) {
    d < 16 && (c == "0123456789ABCDEF"[d] || c == "0123456789abcdef"[d])
  }

  lemma HexIff(c: char, d: nat)
    ensures HexValue(c) == Some(d) <==> IsHex(c, d)
  {
  }

  /** The token stands for this byte. */
  ghost predicate Means(t: Token, byte: char) {
    match t
    case Plain(c) => c != '%' && byte == c
    case Escape(high, low) => exists h: nat, l: nat :: IsHex(high, h) && IsHex(low, l) && byte as int == h * 16 + l
  }

  function TokenText(t: Token): string {
    match t
    case Plain(c) => [c]
    case Escape(high, low) => ['%', high, low]
  }

  function TokensText(tokens: seq<Token>): string {
    if tokens == [] then "" else TokenText(tokens[0]) + TokensText(tokens[1..])
  }

  ghost predicate Spelled(tokens: seq<Token>, name: string) {
    |tokens| == |name| && forall i :: 0 <= i < |name| ==> Means(tokens[i], name[i])
  }

  lemma DecodesFirst(t: Token, byte: char, rest: string)
    requires Means(t, byte)
    ensures DecodeName(TokenText(t) + rest) == (if DecodeName(rest).Ok? then Ok([byte] + DecodeName(rest).value) else DecodeName(rest))
  {
    hide IsHex, HexValue;
    var s := TokenText(t) + rest;
    match t {
      case Plain(c) => assert s[1..] == rest;
      case Escape(high, low) =>
        var h: nat, l: nat :| IsHex(high, h) && IsHex(low, l) && byte as int == h * 16 + l;
        HexIff(high, h);
        HexIff(low, l);
        assert s[3..] == rest && s[1] == high && s[2] == low;
    }
  }

  /** However a name is spelled, it is decoded. */
  lemma {:induction false} DecodesSpelled(tokens: seq<Token>, name: string)
    requires Spelled(tokens, name)
    ensures DecodeName(TokensText(tokens)) == Ok(name)
  {
    hide Means, TokenText, DecodeName;
    if tokens == [] {
      NothingSpelled(TokensText(tokens));
    } else {
      DecodesSpelled(tokens[1..], name[1..]);
      DecodesFirst(tokens[0], name[0], TokensText(tokens[1..]));
      assert [name[0]] + name[1..] == name;
    }
  }

  /** Whatever is decoded was spelled in this way. */
  lemma {:induction false} DecodedIsSpelled(encoded: string) returns (tokens: seq<Token>)
    requires DecodeName(encoded).Ok?
    ensures Spelled(tokens, DecodeName(encoded).value) && TokensText(tokens) == encoded
    decreases |encoded|
  {
    hide Means, DecodeName, TokenText, Spelled;
    if encoded == "" {
      tokens := [];
      NothingSpelled(encoded);
    } else {
      var n := if encoded[0] == '%' then 3 else 1;
      DecodedFront(encoded, n);
      var more := DecodedIsSpelled(encoded[n..]);
      var t := FirstToken(encoded);
      tokens := [t] + more;
      SpelledCons(t, DecodeName(encoded).value[0], more, DecodeName(encoded[n..]).value);
      assert tokens[1..] == more && encoded == encoded[..n] + encoded[n..];
    }
  }

  lemma NothingSpelled(s: string)
    requires s == ""
    ensures DecodeName(s) == Ok("") && Spelled([], "")
  {
  }

  lemma SpelledCons(t: Token, c: char, more: seq<Token>, name: string)
    requires Means(t, c) && Spelled(more, name)
    ensures Spelled([t] + more, [c] + name)
  {
    hide Means;
  }

  lemma DecodedFront(encoded: string, n: nat)
    requires encoded != "" && DecodeName(encoded).Ok? && n == (if encoded[0] == '%' then 3 else 1)
    ensures n <= |encoded| && DecodeName(encoded[n..]).Ok? && DecodeName(encoded).value != ""
    ensures DecodeName(encoded).value == [DecodeName(encoded).value[0]] + DecodeName(encoded[n..]).value
  {
    hide HexValue;
  }

  lemma FirstToken(encoded: string) returns (t: Token)
    requires encoded != "" && DecodeName(encoded).Ok?
    ensures DecodeName(encoded).value != "" && Means(t, DecodeName(encoded).value[0])
    ensures TokenText(t) == encoded[..if encoded[0] == '%' then 3 else 1]
  {
    hide IsHex, HexValue;
    if encoded[0] == '%' {
      t := Escape(encoded[1], encoded[2]);
      HexIff(encoded[1], HexValue(encoded[1]).value);
      HexIff(encoded[2], HexValue(encoded[2]).value);
    } else {
      t := Plain(encoded[0]);
    }
  }

  /** The texts that can be decoded are exactly the spellings of names, in which every `%` has two hexadecimal digits behind it. */
  lemma DecodesIff(encoded: string, name: string)
    ensures DecodeName(encoded) == Ok(name) <==> exists tokens :: Spelled(tokens, name) && TokensText(tokens) == encoded
  {
    hide Spelled, TokensText, DecodeName;
    if DecodeName(encoded) == Ok(name) {
      var tokens := DecodedIsSpelled(encoded);
    }
    forall tokens | Spelled(tokens, name) && TokensText(tokens) == encoded
      ensures DecodeName(encoded) == Ok(name)
    {
      DecodesSpelled(tokens, name);
    }
  }

  // ----- the decoding loop -----

  function Prepend(head: string, r: Result<string>): Result<string> {
    if r.Ok? then Ok(head + r.value) else r
  }

  lemma PrependNothing(r: Result<string>)
    ensures Prepend("", r) == r
  {
    if r.Ok? { assert "" + r.value == r.value; }
  }

  lemma PrependTwice(a: string, b: string, r: Result<string>)
    ensures Prepend(a, Prepend(b, r)) == Prepend(a + b, r)
  {
    if r.Ok? { assert a + (b + r.value) == (a + b) + r.value; }
  }

  method DecodeEntryName(encoded: string) returns (r: Result<string>)
    ensures r == DecodeName(encoded)
  {
    var decoded := "";
    var pos := 0;
    assert encoded[0..] == encoded;
    PrependNothing(DecodeName(encoded));
    while pos < |encoded|
      invariant 0 <= pos <= |encoded|
      invariant DecodeName(encoded) == Prepend(decoded, DecodeName(encoded[pos..]))
    {
      var here := encoded[pos..];
      if encoded[pos] == '%' {
        if pos + 2 >= |encoded| {
          return Err("Invalid entry encoding in header name");
        }
        var high, low := HexValue(encoded[pos + 1]), HexValue(encoded[pos + 2]);
        if high.None? || low.None? {
          return Err("Invalid entry encoding in header name");
        }
        var byte := [(high.value * 16 + low.value) as char];
        assert here[3..] == encoded[pos + 3..];
        assert DecodeName(here) == Prepend(byte, DecodeName(here[3..]));
        PrependTwice(decoded, byte, DecodeName(here[3..]));
        decoded := decoded + byte;
        pos := pos + 3;
      } else {
        assert here[1..] == encoded[pos + 1..];
        assert DecodeName(here) == Prepend([encoded[pos]], DecodeName(here[1..]));
        PrependTwice(decoded, [encoded[pos]], DecodeName(here[1..]));
        decoded := decoded + [encoded[pos]];
        pos := pos + 1;
      }
    }
    assert encoded[pos..] == [];
    assert decoded + "" == decoded;
    r := Ok(decoded);
  }

  /** Decoding takes one encoded byte other than `%` apart again. */
  lemma DecodeEncodedByte(c: char, tail: string)
    requires IsByte(c) && c != '%'
    ensures DecodeName(EncodeByte(c) + tail) ==
            Prepend([c], DecodeName(tail))
  {
    var s := EncodeByte(c) + tail;
    if IsTchar(c) {
      assert s[1..] == tail;
    } else {
      assert s[1] == HexDigit(c as int / 16) && s[2] == HexDigit(c as int % 16);
      assert s[3..] == tail;
      assert (c as int / 16) * 16 + c as int % 16 == c as int;
    }
  }

  lemma {:induction false} DecodeEncodeExact(name: string)
    requires IsBytes(name) && '%' !in name
    ensures DecodeName(EncodeName(name)) == Ok(name)
  {
    if name != [] {
      hide DecodeName, EncodeName;
      DecodeEncodeStep(name);
      DecodeEncodeExact(name[1..]);
      assert name == [name[0]] + name[1..];
    }
  }

  /** A hexadecimal digit at the head of an encoded name is a byte of the name itself. */
  lemma HexHead(name: string)
    requires IsBytes(name)
    requires EncodeName(name) != "" && HexValue(EncodeName(name)[0]).Some?
    ensures name != "" && EncodeName(name)[1..] == EncodeName(name[1..])
  {
    hide IsTchar;
    var e := EncodeByte(name[0]);
    assert EncodeName(name) == e + EncodeName(name[1..]);
    assert EncodeName(name)[0] == e[0];
    assert e == [name[0]];
  }

  lemma EncodePercent(name: string)
    requires IsBytes(name) && name != [] && name[0] == '%'
    ensures EncodeName(name)[0] == '%' && EncodeName(name)[1..] == EncodeName(name[1..])
  {
    assert EncodeByte(name[0]) == ['%'];
  }

  /** A bare `%` that decodes swallows the next two bytes of the name. */
  lemma PercentSwallows(name: string)
    requires IsBytes(name) && name != [] && name[0] == '%'
    requires DecodeName(EncodeName(name)).Ok?
    ensures |name| >= 3 && DecodeName(EncodeName(name[3..])).Ok?
    ensures |DecodeName(EncodeName(name)).value| == 1 + |DecodeName(EncodeName(name[3..])).value|
  {
    hide EncodeName, HexValue, AllTchar;
    var s := EncodeName(name);
    EncodePercent(name);
    var t := EncodeName(name[1..]);
    assert s[1] == t[0] && s[2] == t[1];
    HexHead(name[1..]);
    assert name[1..][1..] == name[2..];
    var u := EncodeName(name[2..]);
    assert u[0] == t[1];
    HexHead(name[2..]);
    assert name[2..][1..] == name[3..];
    assert s[3..] == u[1..];
  }

  lemma DecodeEncodeStep(name: string)
    requires IsBytes(name) && name != [] && name[0] != '%'
    ensures DecodeName(EncodeName(name)) == Prepend([name[0]], DecodeName(EncodeName(name[1..])))
  {
    hide DecodeName, EncodeByte;
    DecodeEncodedByte(name[0], EncodeName(name[1..]));
  }

  /** Decoding never lengthens, and a `%` in the name always costs bytes. */
  lemma {:induction false} DecodeEncodeShrinks(name: string)
    requires IsBytes(name)
    ensures DecodeName(EncodeName(name)).Ok? ==> |DecodeName(EncodeName(name)).value| <= |name|
    ensures DecodeName(EncodeName(name)).Ok? && '%' in name ==> |DecodeName(EncodeName(name)).value| < |name|
    decreases |name|
  {
    if name == [] {
    } else if name[0] != '%' {
      hide DecodeName, EncodeName;
      DecodeEncodeStep(name);
      DecodeEncodeShrinks(name[1..]);
    } else if DecodeName(EncodeName(name)).Ok? {
      hide DecodeName, EncodeName;
      PercentSwallows(name);
      DecodeEncodeShrinks(name[3..]);
    }
  }

  /** A name survives the encoding exactly when it holds no percent sign. */
  lemma NameRoundTripIff(name: string)
    requires IsBytes(name)
    ensures DecodeName(EncodeName(name)) == Ok(name) <==> '%' !in name
  {
    if '%' in name {
      DecodeEncodeShrinks(name);
    } else {
      DecodeEncodeExact(name);
    }
  }

  // ----- the entries and labels headers -----

  predicate AllBytes(names: seq<string>) {
    forall i :: 0 <= i < |names| ==> IsBytes(names[i])
  }

  predicate NoPercent(names: seq<string>) {
    forall i :: 0 <= i < |names| ==> '%' !in names[i]
  }

  predicate NoneEmpty(names: seq<string>) {
    forall i :: 0 <= i < |names| ==> names[i] != ""
  }

  predicate JustEmptyName(names: seq<string>) {
    |names| == 1 && names[0] == ""
  }

  function EncodeAll(names: seq<string>): (r: seq<string>)
    requires AllBytes(names)
    ensures |r| == |names|
    ensures forall i :: 0 <= i < |r| ==> r[i] == EncodeName(names[i])
  {
    if names == [] then [] else [EncodeName(names[0])] + EncodeAll(names[1..])
  }

  /** `make_entries_header`, also the text of `LabelIndex::as_header` */
  function MakeNamesHeader(names: seq<string>): string
    requires AllBytes(names)
  {
    Join(EncodeAll(names), ',')
  }

  function DecodeParts(parts: seq<string>, allowEmpty: bool): Result<seq<string>> {
    if parts == [] then Ok([])
    else
      var part := Trim(parts[0]);
      if part == "" && !allowEmpty then
        Err("x-reduct-entries header must not contain empty entry names")
      else
        var name :- DecodeName(part);
        var rest :- DecodeParts(parts[1..], allowEmpty);
        Ok([name] + rest)
  }

  function ParseEntriesHeader(text: string): Result<seq<string>> {
    var entries :- Received(text, "Invalid entries header");
    if Trim(entries) == "" then Err("x-reduct-entries header is required")
    else DecodeParts(Split(entries, ','), false)
  }

  function ParseLabelsHeader(text: string): Result<seq<string>> {
    var labels :- Received(text, "Invalid labels header");
    if Trim(labels) == "" then Err("x-reduct-labels header is empty")
    else DecodeParts(Split(labels, ','), true)
  }

  /** The part of a list is a spelling of the name with white space around it. */
  ghost predicate PartNames(part: string, name: string, allowEmpty: bool) {
    exists u, tokens, w :: Padded(part, u, tokens, w) && Spelled(tokens, name) && (allowEmpty || tokens != [])
  }

  ghost predicate Padded(part: string, u: string, tokens: seq<Token>, w: string) {
    AllSpace(u) && AllSpace(w) && Trimmed(TokensText(tokens)) && part == u + TokensText(tokens) + w
  }

  lemma NoTokens(tokens: seq<Token>)
    ensures TokensText(tokens) == "" <==> tokens == []
  {
  }

  lemma PartIff(part: string, name: string, allowEmpty: bool)
    ensures PartNames(part, name, allowEmpty) <==> DecodeName(Trim(part)) == Ok(name) && (allowEmpty || Trim(part) != "")
  {
    hide Trim, DecodeName, Spelled, TokensText;
    DecodesIff(Trim(part), name);
    if DecodeName(Trim(part)) == Ok(name) && (allowEmpty || Trim(part) != "") {
      var tokens :| Spelled(tokens, name) && TokensText(tokens) == Trim(part);
      var u, x, w := Pared(part);
      TrimBoth(u, x, w);
      NoTokens(tokens);
      assert Padded(part, u, tokens, w);
    }
    if PartNames(part, name, allowEmpty) {
      var u, tokens, w :| Padded(part, u, tokens, w) && Spelled(tokens, name) && (allowEmpty || tokens != []);
      TrimBoth(u, TokensText(tokens), w);
      NoTokens(tokens);
    }
  }

  /** A list of names is read from exactly those lists of parts that spell them, with any white space around them. */
  lemma {:induction false} PartsIff(parts: seq<string>, names: seq<string>, allowEmpty: bool)
    ensures DecodeParts(parts, allowEmpty) == Ok(names)
            <==> |parts| == |names| && forall i :: 0 <= i < |names| ==> PartNames(parts[i], names[i], allowEmpty)
    decreases |parts|
  {
    hide PartNames, Trim, DecodeName;
    if parts != [] && names != [] {
      PartIff(parts[0], names[0], allowEmpty);
      PartsIff(parts[1..], names[1..], allowEmpty);
      assert names == [names[0]] + names[1..];
      if |parts| == |names| { AllPartsName(parts, names, allowEmpty); }
    }
  }

  lemma AllPartsName(parts: seq<string>, names: seq<string>, allowEmpty: bool)
    requires |parts| == |names| > 0
    ensures (forall i :: 0 <= i < |names| ==> PartNames(parts[i], names[i], allowEmpty))
            <==> PartNames(parts[0], names[0], allowEmpty)
                 && forall i :: 0 <= i < |names[1..]| ==> PartNames(parts[1..][i], names[1..][i], allowEmpty)
  {
    hide PartNames;
    assert forall i :: 0 < i < |names| ==> parts[i] == parts[1..][i - 1] && names[i] == names[1..][i - 1];
    assert forall i :: 0 <= i < |names[1..]| ==> parts[1..][i] == parts[i + 1] && names[1..][i] == names[i + 1];
  }

  /** Decoding the encoded names, one name at a time. */
  lemma DecodePartsStep(names: seq<string>, allowEmpty: bool)
    requires names != [] && AllBytes(names)
    ensures var first, rest := DecodeName(EncodeName(names[0])), DecodeParts(EncodeAll(names[1..]), allowEmpty);
            var all := DecodeParts(EncodeAll(names), allowEmpty);
            && ((names[0] == "" && !allowEmpty) || first.Err? || rest.Err? ==> all.Err?)
            && (!(names[0] == "" && !allowEmpty) && first.Ok? && rest.Ok? ==> all == Ok([first.value] + rest.value))
  {
    hide DecodeName, Trim;
    TcharTrimmed(EncodeName(names[0]));
    TrimTrimmed(EncodeName(names[0]));
    assert EncodeAll(names)[1..] == EncodeAll(names[1..]);
  }

  lemma TrimTrimmed(s: string)
    requires Trimmed(s)
    ensures Trim(s) == s
  {
  }

  lemma DecodeNoParts(parts: seq<string>, allowEmpty: bool)
    requires parts == []
    ensures DecodeParts(parts, allowEmpty) == Ok([])
  {
  }

  lemma {:induction false} DecodePartsExact(names: seq<string>, allowEmpty: bool)
    requires AllBytes(names) && NoPercent(names)
    requires allowEmpty || NoneEmpty(names)
    ensures DecodeParts(EncodeAll(names), allowEmpty) == Ok(names)
  {
    hide EncodeName, DecodeName, Trim, DecodeParts, EncodeAll;
    if names == [] {
      DecodeNoParts(EncodeAll(names), allowEmpty);
    } else {
      DecodePartsStep(names, allowEmpty);
      DecodeEncodeExact(names[0]);
      DecodePartsExact(names[1..], allowEmpty);
      assert names == [names[0]] + names[1..];
    }
  }

  lemma TcharTrimmed(s: string)
    requires AllTchar(s)
    ensures Trimmed(s) && ',' !in s
  {
    if s != [] { assert IsTchar(s[0]) && IsTchar(s[|s| - 1]); }
  }

  lemma TcharText(s: string)
    requires AllTchar(s)
    ensures IsHeaderText(s)
  {
    forall i | 0 <= i < |s|
      ensures ' ' <= s[i] <= '~'
    {
      assert IsTchar(s[i]);
    }
  }

  /** A header of encoded names is always text. */
  lemma NamesHeaderIsText(names: seq<string>)
    requires AllBytes(names)
    ensures IsHeaderText(MakeNamesHeader(names))
  {
    hide IsHeaderText, AllTchar, EncodeName;
    var parts := EncodeAll(names);
    forall i | 0 <= i < |parts|
      ensures IsHeaderText(parts[i])
    {
      TcharText(parts[i]);
    }
    TextJoin(parts, ',');
  }

  lemma NamesHeaderSplits(names: seq<string>)
    requires names != []
    requires AllBytes(names)
    ensures Split(MakeNamesHeader(names), ',') == EncodeAll(names)
    ensures Trim(MakeNamesHeader(names)) == "" <==> JustEmptyName(names)
  {
    var parts := EncodeAll(names);
    forall i | 0 <= i < |parts|
      ensures ',' !in parts[i]
    {
      TcharTrimmed(parts[i]);
    }
    SplitJoin(parts, ',');
    var h := Join(parts, ',');
    if JustEmptyName(names) {
      assert EncodeName(names[0]) == "";
    } else if |names| == 1 {
      TcharTrimmed(parts[0]);
    } else {
      JoinNotBlank(parts, ',');
    }
  }

  lemma JoinNotBlank(parts: seq<string>, c: char)
    requires |parts| >= 2 && !IsSpace(c)
    ensures Trim(Join(parts, c)) != ""
  {
    var h := Join(parts, c);
    assert h[|parts[0]|] == c;
    TrimKeeps(h, |parts[0]|);
  }

  lemma TrimKeeps(s: string, i: nat)
    requires i < |s| && !IsSpace(s[i])
    ensures Trim(s) != ""
  {
    TrimStartKeeps(s, i);
    var t := TrimStart(s);
    assert t != [] && !IsSpace(t[0]);
    TrimEndKeeps(t, 0);
  }

  lemma {:induction false} TrimStartKeeps(s: string, i: nat)
    requires i < |s| && !IsSpace(s[i])
    ensures TrimStart(s) != ""
  {
    if IsSpace(s[0]) { TrimStartKeeps(s[1..], i - 1); }
  }

  lemma {:induction false} TrimEndKeeps(s: string, i: nat)
    requires i < |s| && !IsSpace(s[i])
    ensures TrimEnd(s) != ""
  {
    if IsSpace(s[|s| - 1]) { TrimEndKeeps(s[..|s| - 1], i); }
  }

  lemma PartsRoundTripIff(names: seq<string>, allowEmpty: bool)
    requires AllBytes(names)
    ensures DecodeParts(EncodeAll(names), allowEmpty) == Ok(names)
            <==> NoPercent(names) && (allowEmpty || NoneEmpty(names))
  {
    if NoPercent(names) && (allowEmpty || NoneEmpty(names)) {
      DecodePartsExact(names, allowEmpty);
    } else if i :| 0 <= i < |names| && '%' in names[i] {
      DecodePartsBad(names, allowEmpty, i);
    } else {
      var i :| 0 <= i < |names| && names[i] == "";
      DecodePartsBad(names, allowEmpty, i);
    }
  }

  lemma NoNames(names: seq<string>)
    requires names == []
    ensures ParseEntriesHeader(MakeNamesHeader(names)).Err? && ParseLabelsHeader(MakeNamesHeader(names)).Err?
  {
  }

  /** The entries header gives the list back exactly when there are names, all non-empty and free of `%`. */
  lemma EntriesHeaderRoundTripIff(names: seq<string>)
    requires AllBytes(names)
    ensures ParseEntriesHeader(MakeNamesHeader(names)) == Ok(names)
            <==> names != [] && NoneEmpty(names) && NoPercent(names)
  {
    hide Split, DecodeParts, EncodeAll, MakeNamesHeader, ParseEntriesHeader, NoPercent, Trim, IsHeaderText;
    if names == [] {
      NoNames(names);
    } else {
      NamesHeaderSplits(names);
      NamesHeaderIsText(names);
      HeaderParts(MakeNamesHeader(names));
      PartsRoundTripIff(names, false);
    }
  }

  /** A header that is text and not blank is decoded part by part. */
  lemma HeaderParts(text: string)
    requires IsHeaderText(text)
    ensures if Trim(text) == "" then ParseEntriesHeader(text).Err? && ParseLabelsHeader(text).Err?
            else ParseEntriesHeader(text) == DecodeParts(Split(text, ','), false)
                 && ParseLabelsHeader(text) == DecodeParts(Split(text, ','), true)
  {
    hide Split, DecodeParts, IsHeaderText, Trim;
  }

  /** The labels header gives the table back exactly when there are names, none with a `%`, other than one empty name. */
  lemma LabelsHeaderRoundTripIff(names: seq<string>)
    requires AllBytes(names)
    ensures ParseLabelsHeader(MakeNamesHeader(names)) == Ok(names)
            <==> names != [] && !JustEmptyName(names) && NoPercent(names)
  {
    hide Split, DecodeParts, EncodeAll, MakeNamesHeader, ParseLabelsHeader, NoPercent, Trim, IsHeaderText;
    if names == [] {
      NoNames(names);
    } else {
      NamesHeaderSplits(names);
      NamesHeaderIsText(names);
      HeaderParts(MakeNamesHeader(names));
      PartsRoundTripIff(names, true);
    }
  }

  lemma {:induction false} DecodePartsBad(names: seq<string>, allowEmpty: bool, i: nat)
    requires AllBytes(names)
    requires i < |names| && ('%' in names[i] || (names[i] == "" && !allowEmpty))
    ensures DecodeParts(EncodeAll(names), allowEmpty) != Ok(names)
  {
    hide EncodeName, DecodeName, Trim, DecodeParts, EncodeAll;
    DecodePartsStep(names, allowEmpty);
    if i == 0 {
      NameRoundTripIff(names[0]);
    } else {
      DecodePartsBad(names[1..], allowEmpty, i - 1);
    }
    assert names == [names[0]] + names[1..];
  }
}
