/**
  Text operations the batch protocol relies on: splitting, trimming, joining and
  decimal numbers.

  A Rust string is modelled by its UTF-8 bytes, each written as a `char` below 256.
  Every text that is trimmed has passed `HeaderValue::to_str`, so only ASCII white
  space can occur in it.
*/
module Text {
  import opened Common

  /** The outcome of a fallible operation; every failure here is a 422 response. */
  datatype Result<+T> = Ok(value: T) | Err(reason: string) {
    predicate IsFailure() { Err? }

    function PropagateFailure<U>(): Result<U>
      requires Err?
    {
      Err(reason)
    }

    function Extract(): T
      requires Ok?
    {
      value
    }
  }

  // ----- splitting -----

  /** The position of the first `c`, or the length of `s` when there is none. */
  function IndexOf(s: string, c: char): (i: nat)
    ensures i <= |s|
    ensures forall k :: 0 <= k < i ==> s[k] != c
    ensures i < |s| ==> s[i] == c
  {
    if s == [] || s[0] == c then 0 else 1 + IndexOf(s[1..], c)
  }

  /** `str::split_once` */
  function SplitOnce(s: string, c: char): (r: Option<(string, string)>)
    ensures r.None? <==> c !in s
    ensures r.Some? ==> s == r.value.0 + [c] + r.value.1 && c !in r.value.0
  {
    var i := IndexOf(s, c);
    if i == |s| then
      None
    else
      Some((s[..i], s[i + 1..]))
  }

  lemma SplitOnceAt(a: string, c: char, b: string)
    requires c !in a
    ensures SplitOnce(a + [c] + b, c) == Some((a, b))
  {
    var s := a + [c] + b;
    var i := IndexOf(s, c);
    assert s[|a|] == c;
    assert forall k :: 0 <= k < |a| ==> s[k] == a[k];
    assert i == |a|;
    assert s[..i] == a && s[i + 1..] == b;
  }

  /** The position just after the last `c`, or 0 when there is none. */
  function AfterLast(s: string, c: char): (i: nat)
    ensures i <= |s|
    ensures forall k :: i <= k < |s| ==> s[k] != c
    ensures 0 < i ==> s[i - 1] == c
  {
    if s == [] then 0
    else if s[|s| - 1] == c then |s|
    else
      AfterLast(s[..|s| - 1], c)
  }

  /** `str::rsplit_once` */
  function RSplitOnce(s: string, c: char): (r: Option<(string, string)>)
    ensures r.None? <==> c !in s
    ensures r.Some? ==> s == r.value.0 + [c] + r.value.1 && c !in r.value.1
  {
    var i := AfterLast(s, c);
    if i == 0 then
      None
    else
      Some((s[..i - 1], s[i..]))
  }

  lemma RSplitOnceAt(a: string, c: char, b: string)
    requires c !in b
    ensures RSplitOnce(a + [c] + b, c) == Some((a, b))
  {
    var s := a + [c] + b;
    var i := AfterLast(s, c);
    assert s[|a|] == c;
    assert forall k :: |a| < k < |s| ==> s[k] == b[k - |a| - 1];
    assert i == |a| + 1;
    assert s[..i - 1] == a && s[i..] == b;
  }

  /** `str::split`: never empty, a text without `c` is its own only part. */
  function Split(s: string, c: char): (parts: seq<string>)
    ensures parts != []
    decreases |s|
  {
    match SplitOnce(s, c)
    case None => [s]
    case Some((a, b)) => [a] + Split(b, c)
  }

  /** `join` with a one-character separator */
  function Join(parts: seq<string>, c: char): string {
    if parts == [] then ""
    else if |parts| == 1 then parts[0]
    else parts[0] + [c] + Join(parts[1..], c)
  }

  lemma {:induction false} SplitJoin(parts: seq<string>, c: char)
    requires parts != []
    requires forall i :: 0 <= i < |parts| ==> c !in parts[i]
    ensures Split(Join(parts, c), c) == parts
  {
    if |parts| == 1 {
      assert parts == [parts[0]];
    } else {
      SplitOnceAt(parts[0], c, Join(parts[1..], c));
      SplitJoin(parts[1..], c);
      assert parts == [parts[0]] + parts[1..];
    }
  }

  // ----- trimming -----

  predicate IsSpace(c: char) {
    c == ' ' || '\t' <= c <= '\r'
  }

  /** The space, and the characters from the tab to the carriage return. */
  lemma SpaceIff(c: char)
    ensures IsSpace(c) <==> c as int in {9, 10, 11, 12, 13, 32}
  {
  }

  function TrimStart(s: string): (t: string)
    ensures |t| <= |s| && t == s[|s| - |t|..]
    ensures t != [] ==> !IsSpace(t[0])
    ensures s == [] || !IsSpace(s[0]) ==> t == s
  {
    if s == [] || !IsSpace(s[0]) then s else TrimStart(s[1..])
  }

  function TrimEnd(s: string): (t: string)
    ensures |t| <= |s| && t == s[..|t|]
    ensures t != [] ==> !IsSpace(t[|t| - 1])
    ensures s == [] || !IsSpace(s[|s| - 1]) ==> t == s
  {
    if s == [] || !IsSpace(s[|s| - 1]) then s else TrimEnd(s[..|s| - 1])
  }

  /** `str::trim` */
  function Trim(s: string): (t: string)
    ensures |t| <= |s|
    ensures Trimmed(t)
    ensures Trimmed(s) ==> t == s
  {
    var t := TrimEnd(TrimStart(s));
    assert t != [] ==> t[0] == TrimStart(s)[0];
    t
  }

  /** No white space at either end. */
  predicate Trimmed(s: string) {
    s != [] ==> !IsSpace(s[0]) && !IsSpace(s[|s| - 1])
  }

  /** `str::trim_start_matches` with a character */
  function TrimStartMatches(s: string, c: char): (t: string)
    ensures |t| <= |s|
    ensures t == s <==> s == [] || s[0] != c
  {
    if s == [] || s[0] != c then s else TrimStartMatches(s[1..], c)
  }

  predicate StartsWith(s: string, prefix: string) {
    |prefix| <= |s| && s[..|prefix|] == prefix
  }

  // ----- header values -----

  /** The characters of a header value: no control characters but the tab. */
  predicate IsHeaderChar(c: char) {
    c == '\t' || (' ' <= c && c != 127 as char)
  }

  /** The texts that can be put into a header value; making one of any other text panics. */
  predicate IsHeaderValue(s: string) {
    forall i :: 0 <= i < |s| ==> IsHeaderChar(s[i])
  }

  /** The header values that are ASCII, which are those that can be read as text. */
  predicate IsHeaderText(s: string) {
    forall i :: 0 <= i < |s| ==> s[i] == '\t' || ' ' <= s[i] <= '~'
  }

  /** By their codes: a header value may be made of everything but control characters, and is read as text if it is ASCII. */
  lemma HeaderValueIff(s: string)
    ensures IsHeaderValue(s) <==> forall c :: c in s ==> c as int == 9 || (32 <= c as int && c as int != 127)
    ensures IsHeaderText(s) <==> forall c :: c in s ==> c as int == 9 || 32 <= c as int <= 126
  {
    assert forall i :: 0 <= i < |s| ==> s[i] in s;
  }

  /** `HeaderValue::to_str` */
  function Received(value: string, problem: string): Result<string> {
    if IsHeaderText(value) then Ok(value) else Err(problem)
  }

  lemma HeaderTextIsValue(s: string)
    requires IsHeaderText(s)
    ensures IsHeaderValue(s)
  {
  }

  lemma DigitsAreText(s: string)
    requires AllDigits(s)
    ensures IsHeaderText(s)
  {
    assert forall i :: 0 <= i < |s| ==> IsDigit(s[i]);
  }

  lemma TextAppend(a: string, b: string)
    ensures IsHeaderText(a + b) <==> IsHeaderText(a) && IsHeaderText(b)
  {
    var s := a + b;
    assert forall i :: 0 <= i < |a| ==> s[i] == a[i];
    assert forall i :: 0 <= i < |b| ==> s[|a| + i] == b[i];
  }

  /** Joined texts are text if each of them is. */
  lemma {:induction false} TextJoin(parts: seq<string>, c: char)
    requires ' ' <= c <= '~'
    requires forall i :: 0 <= i < |parts| ==> IsHeaderText(parts[i])
    ensures IsHeaderText(Join(parts, c))
  {
    hide IsHeaderText;
    if parts == [] {
      NoText(Join(parts, c));
    } else if |parts| > 1 {
      TextJoin(parts[1..], c);
      OneText(c);
      TextAppend(parts[0], [c]);
      TextAppend(parts[0] + [c], Join(parts[1..], c));
    }
  }

  lemma NoText(s: string)
    requires s == ""
    ensures IsHeaderText(s)
  {
  }

  lemma OneText(c: char)
    requires ' ' <= c <= '~'
    ensures IsHeaderText([c])
  {
  }

  // ----- decimal numbers -----

  predicate IsDigit(c: char) {
    '0' <= c <= '9'
  }

  predicate AllDigits(s: string) {
    forall i :: 0 <= i < |s| ==> IsDigit(s[i])
  }

  function DigitChar(d: nat): (c: char)
    requires d < 10
    ensures IsDigit(c) && c as int - '0' as int == d
  {
    ('0' as int + d) as char
  }

  /** `u64::to_string` */
  function Render(n: nat): (s: string)
    ensures s != [] && AllDigits(s)
    ensures Trimmed(s)
  {
    if n < 10 then [DigitChar(n)] else Render(n / 10) + [DigitChar(n % 10)]
  }

  function DigitsValue(s: string): nat
    requires AllDigits(s)
  {
    if s == [] then 0
    else DigitsValue(s[..|s| - 1]) * 10 + (s[|s| - 1] as int - '0' as int)
  }

  /** `str::parse::<u64>`: an optional `+`, at least one digit, no overflow. */
  function ParseU64(s: string): Option<nat> {
    var t := if s != [] && s[0] == '+' then s[1..] else s;
    if t == [] || !AllDigits(t) || DigitsValue(t) > U64_MAX then None
    else Some(DigitsValue(t))
  }

  lemma {:induction false} DigitsValueOfRender(n: nat)
    ensures DigitsValue(Render(n)) == n
  {
    if n >= 10 {
      DigitsValueOfRender(n / 10);
      var s := Render(n);
      assert s[..|s| - 1] == Render(n / 10);
    }
  }

  /** A number survives being written and read back. */
  lemma ParseOfRender(n: nat)
    requires n <= U64_MAX
    ensures ParseU64(Render(n)) == Some(n)
  {
    DigitsValueOfRender(n);
    var s := Render(n);
    assert IsDigit(s[0]);
  }

  function Zeros(n: nat): string {
    seq(n, _ => '0')
  }

  /** A decimal number as it may be written: with a plus sign and leading zeros. */
  ghost predicate Denotes(s: string, n: nat) {
    exists zeros: nat :: s == Zeros(zeros) + Render(n) || s == "+" + (Zeros(zeros) + Render(n))
  }

  lemma {:induction false} LeadingZeros(zeros: nat, t: string)
    requires AllDigits(t)
    ensures AllDigits(Zeros(zeros) + t) && DigitsValue(Zeros(zeros) + t) == DigitsValue(t)
    decreases |t|
  {
    var s := Zeros(zeros) + t;
    assert AllDigits(s);
    if t == "" {
      assert s == Zeros(zeros);
      OnlyZeros(zeros);
    } else {
      LeadingZeros(zeros, t[..|t| - 1]);
      assert s[..|s| - 1] == Zeros(zeros) + t[..|t| - 1];
    }
  }

  lemma {:induction false} OnlyZeros(zeros: nat)
    ensures DigitsValue(Zeros(zeros)) == 0
  {
    if zeros > 0 {
      assert Zeros(zeros)[..zeros - 1] == Zeros(zeros - 1);
      OnlyZeros(zeros - 1);
    }
  }

  lemma LastDigit(front: string, c: char)
    requires AllDigits(front) && IsDigit(c)
    ensures AllDigits(front + [c]) && DigitsValue(front + [c]) == DigitsValue(front) * 10 + (c as int - '0' as int)
  {
    assert (front + [c])[..|front|] == front;
  }

  lemma RenderMore(n: nat, c: char)
    requires IsDigit(c)
    ensures Render(n * 10 + (c as int - '0' as int)) == if n == 0 then [c] else Render(n) + [c]
  {
    var d := c as int - '0' as int;
    var m := n * 10 + d;
    assert m / 10 == n && m % 10 == d;
    assert DigitChar(d) == c;
    hide DigitChar;
    assert Render(m) == if m < 10 then [DigitChar(m)] else Render(m / 10) + [DigitChar(m % 10)];
  }

  /** Digits are zeros followed by the number they stand for. */
  lemma {:induction false} DigitsAre(t: string) returns (zeros: nat)
    requires t != "" && AllDigits(t)
    ensures t == Zeros(zeros) + Render(DigitsValue(t))
  {
    hide Render, DigitsValue;
    var front, last := t[..|t| - 1], t[|t| - 1];
    assert IsDigit(last) && t == front + [last];
    LastDigit(front, last);
    RenderMore(DigitsValue(front), last);
    if front == "" {
      zeros := 0;
      NoDigits(front);
      assert Zeros(0) + [last] == [last];
    } else {
      zeros := DigitsAre(front);
      if DigitsValue(front) == 0 {
        RenderMore(0, '0');
        MoreZeros(zeros, [last]);
        zeros := zeros + 1;
      } else {
        LastAside(t, Zeros(zeros), Render(DigitsValue(front)), last);
      }
    }
  }

  lemma MoreZeros(n: nat, s: string)
    ensures (Zeros(n) + "0") + s == Zeros(n + 1) + s
  {
    assert Zeros(n) + "0" == Zeros(n + 1);
  }

  lemma LastAside(t: string, a: string, b: string, c: char)
    requires t == (a + b) + [c]
    ensures t == a + (b + [c])
  {
  }

  lemma NoDigits(s: string)
    requires s == ""
    ensures AllDigits(s) && DigitsValue(s) == 0
  {
  }

  /** The texts that are read as a number are exactly the ways to write it, up to the largest one. */
  lemma ParseU64Iff(s: string, n: nat)
    ensures ParseU64(s) == Some(n) <==> n <= U64_MAX && Denotes(s, n)
  {
    hide Render, DigitsValue;
    var t := if s != "" && s[0] == '+' then s[1..] else s;
    if ParseU64(s) == Some(n) {
      var zeros := DigitsAre(t);
    }
    if n <= U64_MAX && Denotes(s, n) {
      var zeros: nat :| s == Zeros(zeros) + Render(n) || s == "+" + (Zeros(zeros) + Render(n));
      LeadingZeros(zeros, Render(n));
      DigitsValueOfRender(n);
      assert IsDigit((Zeros(zeros) + Render(n))[0]);
    }
  }

  // ----- white space -----

  ghost predicate AllSpace(w: string) {
    forall i :: 0 <= i < |w| ==> IsSpace(w[i])
  }

  lemma {:induction false} TrimEndPad(x: string, w: string)
    requires AllSpace(w)
    ensures TrimEnd(x + w) == TrimEnd(x)
    decreases |w|
  {
    if w == "" {
      assert x + w == x;
    } else {
      assert (x + w)[..|x + w| - 1] == x + w[..|w| - 1];
      TrimEndPad(x, w[..|w| - 1]);
    }
  }

  lemma {:induction false} TrimStartPad(x: string, w: string)
    requires AllSpace(w)
    ensures TrimStart(x) != "" ==> TrimStart(x + w) == TrimStart(x) + w
    ensures TrimStart(x) == "" ==> TrimStart(x + w) == ""
  {
    if x == "" {
      assert x + w == w;
      TrimStartSpaces(w);
    } else {
      assert (x + w)[1..] == x[1..] + w;
      if IsSpace(x[0]) { TrimStartPad(x[1..], w); }
    }
  }

  lemma {:induction false} TrimStartSpaces(w: string)
    requires AllSpace(w)
    ensures TrimStart(w) == ""
  {
    if w != "" { TrimStartSpaces(w[1..]); }
  }

  lemma TrimPad(x: string, w: string)
    requires AllSpace(w)
    ensures Trim(x + w) == Trim(x)
  {
    TrimStartPad(x, w);
    TrimEndPad(TrimStart(x), w);
  }

  lemma {:induction false} TrimStartSkips(u: string, x: string)
    requires AllSpace(u)
    ensures TrimStart(u + x) == TrimStart(x)
  {
    if u == "" {
      assert u + x == x;
    } else {
      assert (u + x)[1..] == u[1..] + x;
      TrimStartSkips(u[1..], x);
    }
  }

  lemma SplitOncePad(x: string, w: string, c: char)
    requires AllSpace(w) && !IsSpace(c)
    ensures SplitOnce(x, c).None? <==> SplitOnce(x + w, c).None?
    ensures SplitOnce(x, c).Some? ==> SplitOnce(x + w, c) == Some((SplitOnce(x, c).value.0, SplitOnce(x, c).value.1 + w))
  {
    hide SplitOnce;
    assert c !in w;
    if SplitOnce(x, c).Some? {
      var (a, b) := SplitOnce(x, c).value;
      assert x + w == a + [c] + (b + w);
      SplitOnceAt(a, c, b + w);
    }
  }

  lemma {:induction false} TrimEndRest(s: string) returns (w: string)
    ensures AllSpace(w) && s == TrimEnd(s) + w
  {
    if s == "" || !IsSpace(s[|s| - 1]) {
      w := "";
    } else {
      w := TrimEndRest(s[..|s| - 1]);
      w := w + [s[|s| - 1]];
    }
  }

  lemma PutFront(s: string, v: string, t: string)
    requires s != "" && s[1..] == v + t
    ensures s == ([s[0]] + v) + t
  {
  }

  lemma {:induction false} TrimStartRest(s: string) returns (u: string)
    ensures AllSpace(u) && s == u + TrimStart(s)
  {
    if s == "" || !IsSpace(s[0]) {
      u := "";
    } else {
      var v := TrimStartRest(s[1..]);
      u := [s[0]] + v;
      PutFront(s, v, TrimStart(s[1..]));
    }
  }

  lemma NoneInSpace(w: string, c: char)
    requires AllSpace(w) && !IsSpace(c)
    ensures c !in w
  {
  }

  lemma TrimLead(u: string, x: string)
    requires AllSpace(u)
    ensures Trim(u + x) == Trim(x)
  {
    TrimStartSkips(u, x);
  }

  lemma TrimBoth(u: string, x: string, w: string)
    requires AllSpace(u) && AllSpace(w) && Trimmed(x)
    ensures Trim(u + x + w) == x
  {
    hide Trim;
    assert u + x + w == u + (x + w);
    TrimLead(u, x + w);
    TrimPad(x, w);
  }

  lemma NotIn(u: string, x: string, w: string, c: char)
    requires AllSpace(u) && AllSpace(w) && c !in x && !IsSpace(c)
    ensures c !in u + x + w
  {
    NoneInSpace(u, c);
    NoneInSpace(w, c);
  }

  lemma Pared(s: string) returns (u: string, x: string, w: string)
    ensures AllSpace(u) && AllSpace(w) && Trimmed(x) && s == u + x + w
  {
    hide TrimStart, TrimEnd, AllSpace, Trimmed;
    u := TrimStartRest(s);
    w := TrimEndRest(TrimStart(s));
    x := Trim(s);
    Regrouped(s, u, TrimStart(s), x, w);
  }

  lemma Regrouped(s: string, u: string, t: string, x: string, w: string)
    requires s == u + t && t == x + w
    ensures s == u + x + w
  {
  }

  lemma Blank(s: string)
    requires Trim(s) == ""
    ensures AllSpace(s)
  {
    hide Trim;
    var u, x, w := Pared(s);
    TrimBoth(u, x, w);
    assert s == u + w;
  }

  lemma BlankRest(rest: string)
    requires AllSpace(rest)
    ensures Trim(rest) == ""
  {
    TrimBoth(rest, "", "");
    assert rest + "" + "" == rest;
  }
}
