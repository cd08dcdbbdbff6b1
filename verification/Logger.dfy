/**
  The log filter: levels configured per path are kept in an ordered map, and a target is
  matched by scanning that map from its last path to its first.
*/
module Logger {
  import opened Common
  import opened Text

  datatype Level = Error | Warn | Info | Debug | Trace

  function Rank(level: Level): nat {
    match level
    case Error => 1
    case Warn => 2
    case Info => 3
    case Debug => 4
    case Trace => 5
  }

  /** A level lets through itself and the more severe ones. */
  lemma RankOrders()
    ensures Rank(Error) < Rank(Warn) < Rank(Info) < Rank(Debug) < Rank(Trace)
  {
  }

  /** A path and its level; the ordered map lists these by path. */
  datatype Directive = Directive(path: string, level: Level)

  // ----- the order of the paths -----

  predicate Less(a: string, b: string) {
    b != [] && (a == [] || a[0] < b[0] || (a[0] == b[0] && Less(a[1..], b[1..])))
  }

  lemma {:induction false} Irreflexive(a: string)
    ensures !Less(a, a)
  {
    if a != [] { Irreflexive(a[1..]); }
  }

  lemma {:induction false} Transitive(a: string, b: string, c: string)
    requires Less(a, b) && Less(b, c)
    ensures Less(a, c)
  {
    if a != [] && a[0] == b[0] && b[0] == c[0] { Transitive(a[1..], b[1..], c[1..]); }
  }

  lemma {:induction false} Trichotomy(a: string, b: string)
    ensures Less(a, b) || a == b || Less(b, a)
  {
    if a != [] && b != [] && a[0] == b[0] {
      Trichotomy(a[1..], b[1..]);
      assert a == [a[0]] + a[1..] && b == [b[0]] + b[1..];
    }
  }

  /** Of two prefixes of a text the shorter one comes first. */
  lemma {:induction false} ShorterFirst(p: string, q: string, t: string)
    requires p <= t && q <= t && |p| < |q|
    ensures Less(p, q)
  {
    if p != [] { ShorterFirst(p[1..], q[1..], t[1..]); }
  }

  ghost predicate Ascending(paths: seq<Directive>) {
    forall i, j :: 0 <= i < j < |paths| ==> Less(paths[i].path, paths[j].path)
  }

  /** `d` is the directive of the longest configured prefix of `t`. */
  ghost predicate Longest(paths: seq<Directive>, t: string, d: Directive) {
    && d in paths && d.path <= t
    && forall e :: e in paths && e.path <= t ==> |e.path| <= |d.path|
  }

  /** The last match in the order is the longest. */
  lemma LastIsLongest(paths: seq<Directive>, t: string, i: nat)
    requires Ascending(paths) && i < |paths| && paths[i].path <= t
    requires forall j :: i < j < |paths| ==> !(paths[j].path <= t)
    ensures Longest(paths, t, paths[i])
  {
    hide Less;
    forall e | e in paths && e.path <= t
      ensures |e.path| <= |paths[i].path|
    {
      var j :| 0 <= j < |paths| && paths[j] == e;
      if |paths[i].path| < |e.path| {
        ShorterFirst(paths[i].path, e.path, t);
        if j < i { Transitive(paths[i].path, paths[j].path, paths[i].path); }
        Irreflexive(paths[i].path);
        assert false;
      }
    }
  }

  /** There is at most one longest directive. */
  lemma LongestUnique(paths: seq<Directive>, t: string, d: Directive, e: Directive)
    requires Ascending(paths) && Longest(paths, t, d) && Longest(paths, t, e)
    ensures d == e
  {
    hide Less;
    assert d.path == t[..|d.path|] && e.path == t[..|e.path|];
    var i :| 0 <= i < |paths| && paths[i] == d;
    var j :| 0 <= j < |paths| && paths[j] == e;
    Irreflexive(d.path);
    assert i == j;
  }

  // ----- matching a target -----

  /** `target.replace("::", "/")` */
  function Slashed(s: string): string
    decreases |s|
  {
    if |s| < 2 then s
    else if s[0] == ':' && s[1] == ':' then "/" + Slashed(s[2..])
    else [s[0]] + Slashed(s[1..])
  }

  /** The parts of a text with a separator between them. */
  function JoinWith(parts: seq<string>, separator: string): string {
    if parts == [] then "" else if |parts| == 1 then parts[0] else parts[0] + separator + JoinWith(parts[1..], separator)
  }

  /** There are no two colons in a row, and none at the end of a part that another one follows. */
  ghost predicate ModulePath(parts: seq<string>) {
    && parts != []
    && (forall i, j :: 0 <= i < |parts| && 0 <= j < |parts[i]| - 1 ==> parts[i][j] != ':' || parts[i][j + 1] != ':')
    && (forall i :: 0 <= i < |parts| - 1 ==> parts[i] == "" || parts[i][|parts[i]| - 1] != ':')
  }

  /** Of a module path the colons between its parts become slashes, and nothing else changes. */
  lemma {:induction false} SlashedPath(parts: seq<string>)
    requires ModulePath(parts)
    ensures Slashed(JoinWith(parts, "::")) == JoinWith(parts, "/")
  {
    if |parts| == 1 {
      NothingSlashed(parts[0]);
    } else {
      assert parts[1..] != [] && forall i :: 0 <= i < |parts[1..]| ==> parts[1..][i] == parts[i + 1];
      SlashedPath(parts[1..]);
      SlashedFront(parts[0], JoinWith(parts[1..], "::"));
    }
  }

  lemma {:induction false} NothingSlashed(p: string)
    requires forall j :: 0 <= j < |p| - 1 ==> p[j] != ':' || p[j + 1] != ':'
    ensures Slashed(p) == p
  {
    if |p| >= 2 {
      assert p[0] != ':' || p[0 + 1] != ':';
      NothingSlashed(p[1..]);
    }
  }

  lemma {:induction false} SlashedFront(p: string, rest: string)
    requires (forall j :: 0 <= j < |p| - 1 ==> p[j] != ':' || p[j + 1] != ':') && (p == "" || p[|p| - 1] != ':')
    ensures Slashed(p + "::" + rest) == p + "/" + Slashed(rest)
  {
    var s := p + "::" + rest;
    if p == "" {
      assert s[2..] == rest;
    } else {
      assert s[1..] == p[1..] + "::" + rest;
      SlashedFront(p[1..], rest);
      assert s[0] == p[0];
      if |p| > 1 { assert p[0] != ':' || p[0 + 1] != ':'; }
    }
  }

  // ----- configuring -----

  function Upper(s: string): string {
    seq(|s|, i requires 0 <= i < |s| => if 'a' <= s[i] <= 'z' then s[i] - 'a' + 'A' else s[i])
  }

  function LevelOf(name: string): Level {
    var n := Upper(name);
    if n == "TRACE" then Trace
    else if n == "DEBUG" then Debug
    else if n == "INFO" then Info
    else if n == "WARN" then Warn
    else if n == "ERROR" then Error
    else Info
  }

  /** The name of a level in any mix of upper and lower case; the level names are in upper case. */
  ghost predicate Spells(name: string, level: string) {
    |name| == |level| && forall i :: 0 <= i < |level| && 'A' <= level[i] <= 'Z' ==> name[i] == level[i] || name[i] == level[i] - 'A' + 'a'
  }

  lemma SpellsIff(name: string, level: string)
    requires forall i :: 0 <= i < |level| ==> 'A' <= level[i] <= 'Z'
    ensures Upper(name) == level <==> Spells(name, level)
  {
    if Spells(name, level) {
      assert forall i :: 0 <= i < |level| ==> Upper(name)[i] == level[i];
    }
    if Upper(name) == level {
      forall i | 0 <= i < |level|
        ensures name[i] == level[i] || name[i] == level[i] - 'A' + 'a'
      {
        assert Upper(name)[i] == level[i];
      }
    }
  }

  /** The level that is spelled out; anything else stands for INFO. */
  lemma LevelOfIff(name: string)
    ensures LevelOf(name) == Trace <==> Spells(name, "TRACE")
    ensures LevelOf(name) == Debug <==> Spells(name, "DEBUG")
    ensures LevelOf(name) == Warn <==> Spells(name, "WARN")
    ensures LevelOf(name) == Error <==> Spells(name, "ERROR")
  {
    hide Upper, Spells;
    SpellsIff(name, "TRACE");
    SpellsIff(name, "DEBUG");
    SpellsIff(name, "WARN");
    SpellsIff(name, "ERROR");
    SpellsIff(name, "INFO");
  }

  /** One part of the configuration: `path=level`, or a level for the root. */
  function Parsed(part: string): Directive {
    match SplitOnce(part, '=')
    case Some((path, level)) => Directive(Trim(path), LevelOf(Trim(level)))
    case None => Directive("", LevelOf(Trim(part)))
  }

  /** A part of the configuration with white space anywhere around path and level. */
  lemma ParsedDirective(a: string, path: string, b: string, c: string, level: string, d: string)
    requires AllSpace(a) && AllSpace(b) && AllSpace(c) && AllSpace(d) && Trimmed(path) && Trimmed(level) && '=' !in path
    ensures Parsed((a + path + b) + ['='] + (c + level + d)) == Directive(path, LevelOf(level))
    ensures '=' !in level ==> Parsed(c + level + d) == Directive("", LevelOf(level))
  {
    hide Trim, SplitOnce, LevelOf;
    NotIn(a, path, b, '=');
    SplitOnceAt(a + path + b, '=', c + level + d);
    TrimBoth(a, path, b);
    TrimBoth(c, level, d);
    if '=' !in level { NotIn(c, level, d, '='); }
  }

  function AllParsed(parts: seq<string>): seq<Directive> {
    seq(|parts|, i requires 0 <= i < |parts| => Parsed(parts[i]))
  }

  /** The level that a path ends up with: that of its last directive, and at first INFO for the root. */
  function Effective(directives: seq<Directive>, path: string): Option<Level> {
    if directives == [] then (if path == "" then Some(Info) else None)
    else
      var last := directives[|directives| - 1];
      if last.path == path then Some(last.level) else Effective(directives[..|directives| - 1], path)
  }

  /** The ordered map holds exactly the effective levels. */
  ghost predicate Reflects(paths: seq<Directive>, directives: seq<Directive>) {
    Ascending(paths) && forall path, level :: Directive(path, level) in paths <==> Effective(directives, path) == Some(level)
  }

  /** Once set up, every target has a longest configured prefix, and its effective level is what counts. */
  lemma AlwaysMatched(paths: seq<Directive>, directives: seq<Directive>, t: string)
    requires Reflects(paths, directives)
    ensures exists d :: Longest(paths, t, d) && Effective(directives, d.path) == Some(d.level)
  {
    hide Ascending, Longest;
    RootEffective(directives);
    var level := Effective(directives, "").value;
    assert Directive("", level) in paths;
    var root :| 0 <= root < |paths| && paths[root] == Directive("", level);
    assert paths[root].path <= t;
    var i := |paths| - 1;
    while !(paths[i].path <= t)
      invariant root <= i < |paths|
      invariant forall j :: i < j < |paths| ==> !(paths[j].path <= t)
      decreases i
    {
      i := i - 1;
    }
    LastIsLongest(paths, t, i);
    assert Directive(paths[i].path, paths[i].level) in paths;
  }

  lemma {:induction false} RootEffective(directives: seq<Directive>)
    ensures Effective(directives, "").Some?
  {
    if directives != [] { RootEffective(directives[..|directives| - 1]); }
  }

  // ----- the code -----

  class LevelFilter {
    /** The ordered map, from its first path to its last. */
    var paths: seq<Directive>

    constructor ()
      ensures paths == []
    {
      paths := [];
    }

    /** `Logger::enabled`: the level of the longest configured prefix decides. */
    method Enabled(target: string, level: Level) returns (on: bool)
      requires Ascending(paths)
      ensures forall d :: Longest(paths, Slashed(target), d) ==> on == (Rank(level) <= Rank(d.level))
      ensures (forall i :: 0 <= i < |paths| ==> !(paths[i].path <= Slashed(target))) ==> !on
    {
      hide Ascending, Longest, Slashed;
      var i := |paths|;
      while 0 < i
        invariant 0 <= i <= |paths|
        invariant forall j :: i <= j < |paths| ==> !(paths[j].path <= Slashed(target))
      {
        i := i - 1;
        if paths[i].path == "" || paths[i].path <= Slashed(target) {
          LastIsLongest(paths, Slashed(target), i);
          on := Rank(level) <= Rank(paths[i].level);
          forall d | Longest(paths, Slashed(target), d)
            ensures d == paths[i]
          {
            LongestUnique(paths, Slashed(target), d, paths[i]);
          }
          return;
        }
      }
      on := false;
      NoLongest(paths, Slashed(target));
    }

    /** Puts a path into the ordered map. */
    method Put(d: Directive)
      requires Ascending(paths)
      modifies this
      ensures Ascending(paths)
      ensures forall e :: e in paths <==> e == d || (e in old(paths) && e.path != d.path)
    {
      var i := 0;
      while i < |paths| && Less(paths[i].path, d.path)
        invariant 0 <= i <= |paths|
        invariant forall j :: 0 <= j < i ==> Less(paths[j].path, d.path)
      {
        i := i + 1;
      }
      Placed(paths, d, i);
      if i < |paths| && paths[i].path == d.path {
        paths := paths[..i] + [d] + paths[i + 1..];
      } else {
        paths := paths[..i] + [d] + paths[i..];
      }
    }

    /** `Logger::setup`; the global maximum starts at its top and stays there. */
    method Setup(levels: string) returns (maxLevel: Level)
      modifies this
      ensures Reflects(paths, AllParsed(Split(levels, ',')))
      ensures maxLevel == Trace
    {
      hide Less, Ascending, Reflects, AllParsed, Parsed, Split;
      maxLevel := Trace;
      paths := [];
      NoPaths(paths);
      Put(Directive("", Info));
      var parts := Split(levels, ',');
      RootOnly(paths);
      ParsedNone(parts[..0]);
      for i := 0 to |parts|
        invariant maxLevel == Trace
        invariant Reflects(paths, AllParsed(parts[..i]))
      {
        var d := Parsed(parts[i]);
        if Rank(maxLevel) < Rank(d.level) { maxLevel := d.level; }
        ghost var before := paths;
        IsAscending(before, AllParsed(parts[..i]));
        Put(d);
        ReflectsMore(before, paths, AllParsed(parts[..i]), d);
        ParsedMore(parts, i);
      }
      assert parts[..|parts|] == parts;
    }
  }

  lemma ParsedNone(parts: seq<string>)
    requires parts == []
    ensures AllParsed(parts) == []
  {
  }

  lemma ParsedMore(parts: seq<string>, i: nat)
    requires i < |parts|
    ensures AllParsed(parts[..i + 1]) == AllParsed(parts[..i]) + [Parsed(parts[i])]
  {
    hide Parsed;
  }

  lemma IsAscending(paths: seq<Directive>, directives: seq<Directive>)
    requires Reflects(paths, directives)
    ensures Ascending(paths)
  {
  }

  lemma RootOnly(paths: seq<Directive>)
    requires Ascending(paths) && forall e :: e in paths <==> e == Directive("", Info)
    ensures Reflects(paths, [])
  {
    hide Ascending;
  }

  lemma NoPaths(paths: seq<Directive>)
    requires paths == []
    ensures Ascending(paths)
  {
  }

  lemma NoLongest(paths: seq<Directive>, t: string)
    requires forall i :: 0 <= i < |paths| ==> !(paths[i].path <= t)
    ensures forall d :: !Longest(paths, t, d)
  {
  }

  lemma ReflectsMore(before: seq<Directive>, after: seq<Directive>, directives: seq<Directive>, d: Directive)
    requires Reflects(before, directives) && Ascending(after)
    requires forall e :: e in after <==> e == d || (e in before && e.path != d.path)
    ensures Reflects(after, directives + [d])
  {
    hide Ascending;
    assert (directives + [d])[..|directives|] == directives;
    forall path, level
      ensures Directive(path, level) in after <==> Effective(directives + [d], path) == Some(level)
    {
      assert Directive(path, level) in before <==> Effective(directives, path) == Some(level);
    }
  }

  /** Where a path goes in the order. */
  lemma Placed(paths: seq<Directive>, d: Directive, i: nat)
    requires Ascending(paths) && i <= |paths|
    requires forall j :: 0 <= j < i ==> Less(paths[j].path, d.path)
    requires i < |paths| ==> !Less(paths[i].path, d.path)
    ensures var rest := if i < |paths| && paths[i].path == d.path then paths[i + 1..] else paths[i..];
            && Ascending(paths[..i] + [d] + rest)
            && forall e :: e in paths[..i] + [d] + rest <==> e == d || (e in paths && e.path != d.path)
  {
    hide Less, Ascending;
    Irreflexive(d.path);
    var from := if i < |paths| && paths[i].path == d.path then i + 1 else i;
    forall k | from <= k < |paths|
      ensures Less(d.path, paths[k].path)
    {
      if i < k { AscendingAt(paths, i, k); }
      Trichotomy(paths[i].path, d.path);
      if i < k && paths[i].path != d.path { Transitive(d.path, paths[i].path, paths[k].path); }
    }
    AscendingJoin(paths, d, i, from);
    forall e
      ensures e in paths[..i] + [d] + paths[from..] <==> e == d || (e in paths && e.path != d.path)
    {
      SplitMembers(paths, i, from, e);
      Irreflexive(e.path);
    }
  }

  lemma AscendingAt(paths: seq<Directive>, i: nat, k: nat)
    requires Ascending(paths) && i < k < |paths|
    ensures Less(paths[i].path, paths[k].path)
  {
  }

  lemma AscendingJoin(paths: seq<Directive>, d: Directive, i: nat, from: nat)
    requires Ascending(paths) && i <= from <= |paths|
    requires forall j :: 0 <= j < i ==> Less(paths[j].path, d.path)
    requires forall k :: from <= k < |paths| ==> Less(d.path, paths[k].path)
    ensures Ascending(paths[..i] + [d] + paths[from..])
  {
    hide Less;
  }

  lemma SplitMembers(paths: seq<Directive>, i: nat, from: nat, e: Directive)
    requires i <= from <= |paths| && from <= i + 1
    ensures e in paths <==> e in paths[..i] || e in paths[from..] || (i < from && e == paths[i])
  {
    if e in paths {
      var k :| 0 <= k < |paths| && paths[k] == e;
      if k < i { assert paths[..i][k] == e; }
      if from <= k { assert paths[from..][k - from] == e; }
    }
  }
}
