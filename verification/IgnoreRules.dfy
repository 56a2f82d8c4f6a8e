/** Ignore rules: how a raw line becomes a rule, which paths a rule matches, and
    which rule decides when several match. */
module IgnoreRules {
  import opened Wrappers
  import opened RegexText
  import opened IgnoreGlob

  // ---- path components, as `Path(rel_path).parts` lists them on POSIX ----

  function Split(s: string): (r: seq<string>)
    ensures |r| >= 1 && forall part :: part in r ==> '/' !in part
    decreases |s|
  {
    match Find(s, '/', 0)
    case None => assert s[0..] == s; [s]
    case Some(k) => assert s[0..k] == s[..k]; [s[..k]] + Split(s[k + 1..])
  }

  predicate RealName(part: string) {
    part != "" && part != "."
  }

  function RealNames(parts: seq<string>): (r: seq<string>)
    ensures forall part :: part in r <==> part in parts && RealName(part)
  {
    if parts == [] then []
    else (if RealName(parts[0]) then [parts[0]] else []) + RealNames(parts[1..])
  }

  function Root(path: string): seq<string> {
    if |path| == 0 || path[0] != '/' then []
    else if |path| > 1 && path[1] == '/' && (|path| == 2 || path[2] != '/') then ["//"]
    else ["/"]
  }

  function Parts(path: string): seq<string> {
    Root(path) + RealNames(Split(path))
  }

  function Path(parts: seq<string>): string {
    if parts == [] then "" else if |parts| == 1 then parts[0] else parts[0] + "/" + Path(parts[1..])
  }

  /** Component lists of normalised relative paths. */
  ghost predicate Normal(parts: seq<string>) {
    parts != [] && forall part :: part in parts ==> RealName(part) && '/' !in part
  }

  lemma {:induction false} FindFirst(s: string, c: char, from: nat, k: nat)
    requires from <= k < |s| && s[k] == c && c !in s[from..k]
    ensures Find(s, c, from) == Some(k)
    decreases k - from
  {
    if from < k {
      assert s[from..k][0] == s[from];
      assert s[from + 1..k] == s[from..k][1..];
      FindFirst(s, c, from + 1, k);
    }
  }

  lemma FoundIsIn(s: string, c: char)
    requires Find(s, c, 0).Some?
    ensures c in s
  {
    assert s[Find(s, c, 0).value] == c;
  }

  lemma {:induction false} SplitOfPath(parts: seq<string>)
    requires Normal(parts)
    ensures Split(Path(parts)) == parts
  {
    var s := Path(parts);
    if |parts| == 1 {
      if Find(s, '/', 0).Some? {
        FoundIsIn(s, '/');
      }
    } else {
      var k := |parts[0]|;
      assert s[..k] == parts[0] && s[k + 1..] == Path(parts[1..]) && s[k] == '/';
      assert s[0..k] == parts[0];
      FindFirst(s, '/', 0, k);
      SplitOfPath(parts[1..]);
    }
  }

  lemma {:induction false} RealNamesKeepsAll(parts: seq<string>)
    requires forall part :: part in parts ==> RealName(part)
    ensures RealNames(parts) == parts
  {
    if parts != [] {
      RealNamesKeepsAll(parts[1..]);
    }
  }

  /** Normalised paths and component lists are two forms of the same thing. */
  lemma PartsOfPath(parts: seq<string>)
    requires Normal(parts)
    ensures Parts(Path(parts)) == parts
  {
    SplitOfPath(parts);
    RealNamesKeepsAll(parts);
    assert RealName(parts[0]) && parts[0][0] != '/';
    assert Path(parts)[0] == parts[0][0];
  }

  // ---- rules ----

  datatype IgnoreRule = IgnoreRule(
    raw: string, negate: bool, dirOnly: bool, anchored: bool, pattern: seq<Item>)

  function StripSlashes(s: string): (r: string)
    ensures r <= s
    ensures r == "" || r[|r| - 1] != '/'
    ensures forall k :: |r| <= k < |s| ==> s[k] == '/'
  {
    if s != "" && s[|s| - 1] == '/' then StripSlashes(s[..|s| - 1]) else s
  }

  predicate EndsInSlash(raw: string) {
    raw != "" && raw[|raw| - 1] == '/'
  }

  /** The raw line without the slashes that only mark it as a directory rule. */
  function Clean(raw: string): string {
    if EndsInSlash(raw) then StripSlashes(raw) else raw
  }

  /** The glob that is compiled: one leading slash only anchors. */
  function GlobOf(raw: string): string {
    var clean := Clean(raw);
    if clean != "" && clean[0] == '/' then clean[1..] else clean
  }

  predicate Anchored(raw: string) {
    '/' in Clean(raw)
  }

  /** The rule of a raw line; None where `re.compile` raises. */
  function RuleOf(raw: string, negate: bool): Option<IgnoreRule> {
    match Read(PatternText(GlobOf(raw)))
    case None => None
    case Some(items) => Some(IgnoreRule(raw, negate, EndsInSlash(raw), Anchored(raw), items))
  }

  method NewRule(raw: string, negate: bool) returns (rule: Option<IgnoreRule>)
    ensures rule == RuleOf(raw, negate)
  {
    var dirOnly := EndsInSlash(raw);
    var clean := if dirOnly then StripSlashes(raw) else raw;
    var anchored := '/' in clean || (clean != "" && clean[0] == '/');
    if clean != "" && clean[0] == '/' {
      clean := clean[1..];
    }
    var text := GlobToRegex(clean);
    match Read(text) {
      case None => rule := None;
      case Some(items) => rule := Some(IgnoreRule(raw, negate, dirOnly, anchored, items));
    }
  }

  predicate Matches(rule: IgnoreRule, path: string, isDir: bool, oracle: ClassOracle) {
    (rule.dirOnly ==> isDir) &&
    (Search(rule.pattern, path, oracle) ||
     (!rule.anchored && exists part :: part in Parts(path) && Search(rule.pattern, part, oracle)))
  }

  method MatchesPath(rule: IgnoreRule, path: string, isDir: bool, oracle: ClassOracle) returns (r: bool)
    ensures r == Matches(rule, path, isDir, oracle)
  {
    if rule.dirOnly && !isDir {
      return false;
    }
    if rule.anchored {
      return Search(rule.pattern, path, oracle);
    }
    if Search(rule.pattern, path, oracle) {
      return true;
    }
    var parts := Parts(path);
    for i := 0 to |parts|
      invariant forall j :: 0 <= j < i ==> !Search(rule.pattern, parts[j], oracle)
    {
      if Search(rule.pattern, parts[i], oracle) {
        return true;
      }
    }
    return false;
  }

  lemma PartsHaveNoNewline(path: string, part: string)
    requires '\n' !in path && part in Parts(path)
    ensures '\n' !in part
  {
    SplitIsWithin(path);
    if part in Root(path) {
      assert part == "/" || part == "//";
    }
  }

  lemma {:induction false} SplitIsWithin(s: string)
    ensures forall part, c :: part in Split(s) && c in part ==> c in s
    decreases |s|
  {
    if Find(s, '/', 0).Some? {
      SplitIsWithin(s[Find(s, '/', 0).value + 1..]);
    }
  }

  /** What a raw line means, from the glob to the verdict, for every line whose bracket classes
      close where they seem to and every path without a newline. */
  lemma RuleMeaning(raw: string, negate: bool, path: string, isDir: bool, oracle: ClassOracle)
    requires ClosingClasses(Pieces(GlobOf(raw))) && '\n' !in path
    ensures RuleOf(raw, negate).Some?
    ensures Matches(RuleOf(raw, negate).value, path, isDir, oracle) <==>
            (EndsInSlash(raw) ==> isDir) &&
            (GlobMatch(GlobOf(raw), path, oracle) ||
             ('/' !in Clean(raw) && exists part :: part in Parts(path) && GlobMatch(GlobOf(raw), part, oracle)))
  {
    var glob := GlobOf(raw);
    CompiledGlobOnPaths(glob, path, oracle);
    var items := Read(PatternText(glob)).value;
    forall part | part in Parts(path)
      ensures Search(items, part, oracle) == GlobMatch(glob, part, oracle)
    {
      PartsHaveNoNewline(path, part);
      CompiledGlobOnPaths(glob, part, oracle);
    }
  }

  // ---- lines as they are written ----

  ghost predicate OnlySlashes(s: string) {
    forall c :: c in s ==> c == '/'
  }

  lemma {:induction false} StripTail(g: string, tail: string)
    requires OnlySlashes(tail) && g != "" && g[|g| - 1] != '/'
    ensures StripSlashes(g + tail) == g
  {
    if tail == "" {
      assert g + tail == g;
    } else {
      var last := |tail| - 1;
      assert tail[last] in tail && forall c :: c in tail[..last] ==> c in tail;
      StripTail(g, tail[..last]);
      assert (g + tail)[..|g + tail| - 1] == g + tail[..last];
    }
  }

  /** A line is a glob, perhaps with a slash before it and slashes after it. */
  function Line(rooted: bool, g: string, tail: string): string {
    (if rooted then "/" + g else g) + tail
  }

  lemma LineParts(rooted: bool, g: string, tail: string)
    requires OnlySlashes(tail) && g != "" && g[|g| - 1] != '/' && (!rooted ==> g[0] != '/')
    ensures var raw := Line(rooted, g, tail);
            GlobOf(raw) == g && (EndsInSlash(raw) <==> tail != "") && (Anchored(raw) <==> rooted || '/' in g)
  {
    var front := if rooted then "/" + g else g;
    var raw := front + tail;
    assert front[|front| - 1] == g[|g| - 1];
    StripTail(front, tail);
    if tail == "" {
      assert raw == front;
    } else {
      assert raw[|raw| - 1] == tail[|tail| - 1] && tail[|tail| - 1] in tail;
    }
    assert Clean(raw) == front;
    if rooted {
      assert front[1..] == g && front[0] == '/';
    }
  }

  /** What a written line means: slashes after the glob restrict it to directories, a slash before it or inside it
      ties it to the whole path, and otherwise it may also be met by a component. */
  lemma LineMeaning(
      rooted: bool, g: string, tail: string, negate: bool, path: string, isDir: bool, oracle: ClassOracle)
    requires OnlySlashes(tail) && g != "" && g[|g| - 1] != '/' && (!rooted ==> g[0] != '/')
    requires ClosingClasses(Pieces(g)) && '\n' !in path
    ensures var rule := RuleOf(Line(rooted, g, tail), negate);
            rule.Some? && rule.value.negate == negate && rule.value.raw == Line(rooted, g, tail) &&
            (Matches(rule.value, path, isDir, oracle) <==>
             (tail != "" ==> isDir) &&
             (GlobMatch(g, path, oracle) ||
              (!rooted && '/' !in g && exists part :: part in Parts(path) && GlobMatch(g, part, oracle))))
  {
    var raw := Line(rooted, g, tail);
    LineParts(rooted, g, tail);
    RuleMeaning(raw, negate, path, isDir, oracle);
  }

  // ---- the last matching rule decides ----

  ghost predicate Decides(rules: seq<IgnoreRule>, i: int, path: string, isDir: bool, oracle: ClassOracle) {
    0 <= i < |rules| && Matches(rules[i], path, isDir, oracle) &&
    forall j :: i < j < |rules| ==> !Matches(rules[j], path, isDir, oracle)
  }

  /** Ignored: the last rule that matches exists and is not a negation. */
  ghost predicate Ignored(rules: seq<IgnoreRule>, path: string, isDir: bool, oracle: ClassOracle) {
    exists i :: Decides(rules, i, path, isDir, oracle) && !rules[i].negate
  }

  /** The verdict after one more rule. */
  lemma IgnoredStep(rules: seq<IgnoreRule>, rule: IgnoreRule, path: string, isDir: bool, oracle: ClassOracle)
    ensures Ignored(rules + [rule], path, isDir, oracle) <==>
            if Matches(rule, path, isDir, oracle) then !rule.negate else Ignored(rules, path, isDir, oracle)
  {
    var all := rules + [rule];
    if Matches(rule, path, isDir, oracle) {
      assert Decides(all, |rules|, path, isDir, oracle);
    } else {
      forall i | 0 <= i < |rules| ensures Decides(all, i, path, isDir, oracle) == Decides(rules, i, path, isDir, oracle)
      {
        assert forall j :: i < j < |rules| ==> all[j] == rules[j];
        assert all[|rules|] == rule;
      }
      if Ignored(all, path, isDir, oracle) {
        var i :| Decides(all, i, path, isDir, oracle) && !all[i].negate;
        assert i != |rules|;
        assert Decides(rules, i, path, isDir, oracle);
      }
      if Ignored(rules, path, isDir, oracle) {
        var i :| Decides(rules, i, path, isDir, oracle) && !rules[i].negate;
        assert Decides(all, i, path, isDir, oracle);
      }
    }
  }

  /** `.aiignore` rules come after `.gitignore` rules and have the last word on what they match. */
  lemma {:induction false} LaterFileOverrides(git: seq<IgnoreRule>, ai: seq<IgnoreRule>, path: string, isDir: bool, oracle: ClassOracle)
    ensures Ignored(git + ai, path, isDir, oracle) <==>
            if exists k :: 0 <= k < |ai| && Matches(ai[k], path, isDir, oracle)
            then Ignored(ai, path, isDir, oracle) else Ignored(git, path, isDir, oracle)
  {
    if ai == [] {
      assert git + ai == git;
    } else {
      var init, last := ai[..|ai| - 1], ai[|ai| - 1];
      LaterFileOverrides(git, init, path, isDir, oracle);
      assert git + ai == git + init + [last] && ai == init + [last];
      IgnoredStep(git + init, last, path, isDir, oracle);
      IgnoredStep(init, last, path, isDir, oracle);
    }
  }
}
