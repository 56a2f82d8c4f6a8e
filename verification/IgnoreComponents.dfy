/** Rules without an inner slash: when the components of a path decide alone, so that testing the
    whole path as well adds nothing.

    The answer is exact. A rule has pieces that take exactly one character each, and runs. If no `**` stands
    between two of the former, the components decide. If one does, the rule can reach across a slash and the
    components do not decide, but for one kind of rule: a first dot that takes no run before it, and as only
    other such piece one that takes whatever may come, as in `.**?`. */
module IgnoreComponents {
  import opened Sequences
  import opened RegexText
  import opened IgnoreGlob
  import opened IgnoreRules

  // ---- slices ----

  lemma CutSuffix(s: string, i: nat, k: nat)
    requires i <= k <= |s|
    ensures s[i..][..k - i] == s[..k][i..] && s[i..][k - i..] == s[k..]
  {
  }

  lemma CutPrefix(s: string, i: nat, k: nat)
    requires i <= k <= |s|
    ensures s[..k][..i] == s[..i] && s[..k][i..] == s[i..][..k - i]
  {
  }

  lemma CutMiddle(s: string, n: nat, lo: nat, hi: nat)
    requires lo <= hi && n + hi <= |s|
    ensures s[n..][lo..hi] == s[n + lo..n + hi]
  {
  }

  lemma SlashNotIn(s: string, a: nat, b: nat)
    requires a <= b <= |s| && '/' !in s[a..b]
    ensures forall i :: a <= i < b ==> s[i] != '/'
  {
    forall i | a <= i < b ensures s[i] != '/' {
      assert s[a..b][i - a] == s[i];
    }
  }

  lemma CutConcat(x: string, y: string, k: nat)
    requires k <= |x|
    ensures (x + y)[..k] == x[..k] && (x + y)[k..] == x[k..] + y
  {
  }

  // ---- pieces taking strings ----

  predicate Run(piece: Piece) {
    piece.DoubleStar? || piece.Star?
  }

  ghost predicate AllRuns(pieces: seq<Piece>) {
    forall j :: 0 <= j < |pieces| ==> Run(pieces[j])
  }

  /** The characters a piece that is no run takes. */
  predicate TakesChar(piece: Piece, c: char, oracle: ClassOracle) {
    AtomAccepts(ItemOf(piece).atom, c, oracle)
  }

  ghost predicate TakesPart(piece: Piece, t: string, oracle: ClassOracle) {
    if Run(piece) then AllAccepted(ItemOf(piece).atom, t, oracle) else |t| == 1 && TakesChar(piece, t[0], oracle)
  }

  /** The pieces take the string, each its part in turn. */
  ghost predicate Takes(pieces: seq<Piece>, s: string, oracle: ClassOracle) {
    if pieces == [] then s == ""
    else exists k :: 0 <= k <= |s| && TakesPart(pieces[0], s[..k], oracle) && Takes(pieces[1..], s[k..], oracle)
  }

  lemma {:induction false} TakesIsAccepts(pieces: seq<Piece>, s: string, oracle: ClassOracle)
    ensures Takes(pieces, s, oracle) <==> Accepts(Items(pieces), s, oracle)
  {
    if pieces != [] {
      var item, more := ItemOf(pieces[0]), Items(pieces[1..]);
      var items := Items(pieces);
      assert items == [item] + more && items[0] == item && items[1..] == more;
      forall k | 0 <= k <= |s| ensures Takes(pieces[1..], s[k..], oracle) == Accepts(more, s[k..], oracle) {
        TakesIsAccepts(pieces[1..], s[k..], oracle);
      }
      if Run(pieces[0]) {
        StarTakesARun(item.atom, more, s, oracle);
      } else if s != "" {
        assert s[..1] == [s[0]];
      }
    }
  }

  lemma {:induction false} TakesConcat(a: seq<Piece>, b: seq<Piece>, x: string, y: string, oracle: ClassOracle)
    requires Takes(a, x, oracle) && Takes(b, y, oracle)
    ensures Takes(a + b, x + y, oracle)
  {
    if a == [] {
      assert a + b == b && x + y == y;
    } else {
      var k :| 0 <= k <= |x| && TakesPart(a[0], x[..k], oracle) && Takes(a[1..], x[k..], oracle);
      TakesConcat(a[1..], b, x[k..], y, oracle);
      HeadAndTail(a, b);
      CutConcat(x, y, k);
    }
  }

  lemma TakesCons(pieces: seq<Piece>, s: string, k: nat, oracle: ClassOracle)
    requires pieces != [] && k <= |s| && TakesPart(pieces[0], s[..k], oracle) && Takes(pieces[1..], s[k..], oracle)
    ensures Takes(pieces, s, oracle)
  {
  }

  lemma {:induction false} TakesSplit(a: seq<Piece>, b: seq<Piece>, s: string, oracle: ClassOracle) returns (k: nat)
    requires Takes(a + b, s, oracle)
    ensures k <= |s| && Takes(a, s[..k], oracle) && Takes(b, s[k..], oracle)
  {
    if a == [] {
      assert a + b == b && s[0..] == s;
      k := 0;
    } else {
      HeadAndTail(a, b);
      var i :| 0 <= i <= |s| && TakesPart(a[0], s[..i], oracle) && Takes((a + b)[1..], s[i..], oracle);
      var j := TakesSplit(a[1..], b, s[i..], oracle);
      k := i + j;
      CutPrefix(s, i, k);
      CutSuffix(s, i, k);
      TakesCons(a, s[..k], i, oracle);
    }
  }

  lemma TakesOne(piece: Piece, t: string, oracle: ClassOracle)
    ensures Takes([piece], t, oracle) <==> TakesPart(piece, t, oracle)
  {
    var p := [piece];
    assert p[0] == piece && p[1..] == [];
    assert t[..|t|] == t && t[|t|..] == "";
    forall k | 0 <= k <= |t| && Takes(p[1..], t[k..], oracle) ensures t[..k] == t {}
  }

  // ---- runs take any part of what they take ----

  lemma {:induction false} RunsTakeNothing(pieces: seq<Piece>, oracle: ClassOracle)
    requires AllRuns(pieces)
    ensures Takes(pieces, "", oracle)
  {
    if pieces != [] {
      RunsTakeNothing(pieces[1..], oracle);
      assert ""[..0] == "" && ""[0..] == "";
    }
  }

  lemma {:induction false} RunsTakeSuffix(pieces: seq<Piece>, s: string, i: nat, oracle: ClassOracle)
    requires AllRuns(pieces) && Takes(pieces, s, oracle) && i <= |s|
    ensures Takes(pieces, s[i..], oracle)
    decreases |pieces|
  {
    if pieces != [] {
      var k :| 0 <= k <= |s| && TakesPart(pieces[0], s[..k], oracle) && Takes(pieces[1..], s[k..], oracle);
      if i <= k {
        CutSuffix(s, i, k);
        assert TakesPart(pieces[0], s[i..][..k - i], oracle);
      } else {
        RunsTakeSuffix(pieces[1..], s[k..], i - k, oracle);
        CutSuffix(s, k, i);
        assert s[i..][..0] == "" && s[i..][0..] == s[i..];
        assert TakesPart(pieces[0], "", oracle);
      }
    }
  }

  lemma {:induction false} RunsTakePrefix(pieces: seq<Piece>, s: string, i: nat, oracle: ClassOracle)
    requires AllRuns(pieces) && Takes(pieces, s, oracle) && i <= |s|
    ensures Takes(pieces, s[..i], oracle)
    decreases |pieces|
  {
    if pieces != [] {
      var k :| 0 <= k <= |s| && TakesPart(pieces[0], s[..k], oracle) && Takes(pieces[1..], s[k..], oracle);
      if i <= k {
        CutPrefix(s, i, k);
        assert s[..i][..i] == s[..i] && s[..i][i..] == "";
        assert TakesPart(pieces[0], s[..i][..i], oracle);
        RunsTakeNothing(pieces[1..], oracle);
      } else {
        RunsTakePrefix(pieces[1..], s[k..], i - k, oracle);
        CutPrefix(s, k, i);
      }
    }
  }

  // ---- pieces within a component ----

  /** No piece that is no run takes a slash. */
  ghost predicate NoSlashTaken(pieces: seq<Piece>, oracle: ClassOracle) {
    forall j :: 0 <= j < |pieces| && !Run(pieces[j]) ==> !TakesChar(pieces[j], '/', oracle)
  }

  ghost predicate NoDoubleStar(pieces: seq<Piece>) {
    forall j :: 0 <= j < |pieces| ==> !pieces[j].DoubleStar?
  }

  lemma NoSlashJoined(s: string, k: nat)
    requires k <= |s| && '/' !in s[..k] && '/' !in s[k..]
    ensures '/' !in s
  {
    assert s == s[..k] + s[k..];
  }

  /** A slash is taken by a `**`; and a newline directly before it by a `*` before that `**`. */
  lemma {:induction false} SlashNeedsDoubleStar(pieces: seq<Piece>, s: string, oracle: ClassOracle)
    requires Takes(pieces, s, oracle) && NoSlashTaken(pieces, oracle) && NoDoubleStar(pieces)
    ensures '/' !in s
  {
    if pieces != [] {
      var k :| 0 <= k <= |s| && TakesPart(pieces[0], s[..k], oracle) && Takes(pieces[1..], s[k..], oracle);
      SlashNeedsDoubleStar(pieces[1..], s[k..], oracle);
      NoSlashJoined(s, k);
    }
  }

  ghost predicate StarThenDoubleStar(pieces: seq<Piece>) {
    exists i, j :: 0 <= i < j < |pieces| && pieces[i].Star? && pieces[j].DoubleStar?
  }

  lemma {:induction false} NewlineThenSlash(pieces: seq<Piece>, s: string, i: nat, oracle: ClassOracle)
    requires AllRuns(pieces) && Takes(pieces, s, oracle) && i + 1 < |s| && s[i] == '\n' && s[i + 1] == '/'
    ensures StarThenDoubleStar(pieces)
    decreases |pieces|
  {
    var k :| 0 <= k <= |s| && TakesPart(pieces[0], s[..k], oracle) && Takes(pieces[1..], s[k..], oracle);
    var rest := pieces[1..];
    if k <= i {
      NewlineThenSlash(rest, s[k..], i - k, oracle);
      var a, b :| 0 <= a < b < |rest| && rest[a].Star? && rest[b].DoubleStar?;
      assert pieces[a + 1] == rest[a] && pieces[b + 1] == rest[b];
    } else {
      assert forall j :: 0 <= j < k ==> s[..k][j] == s[j];
      assert pieces[0].Star? && k == i + 1;
      assert s[k..][0] == '/';
      if NoDoubleStar(rest) {
        SlashNeedsDoubleStar(rest, s[k..], oracle);
      }
      var b :| 0 <= b < |rest| && rest[b].DoubleStar?;
      assert pieces[b + 1] == rest[b];
    }
  }

  // ---- the component around a stretch without slash ----

  lemma {:induction false} ComponentAround(parts: seq<string>, a: nat, b: nat) returns (k: nat, lo: nat, hi: nat)
    requires parts != [] && a <= b <= |Path(parts)| && '/' !in Path(parts)[a..b]
    ensures k < |parts| && lo <= a && b <= hi <= |Path(parts)| && parts[k] == Path(parts)[lo..hi]
    ensures hi < |Path(parts)| ==> Path(parts)[hi] == '/'
  {
    var s, n := Path(parts), |parts[0]|;
    if |parts| == 1 || b <= n {
      k, lo, hi := 0, 0, n;
    } else {
      assert s == parts[0] + "/" + Path(parts[1..]) && s[n] == '/';
      SlashNotIn(s, a, b);
      assert s[n + 1..] == Path(parts[1..]);
      CutMiddle(s, n + 1, a - n - 1, b - n - 1);
      var lo', hi';
      k, lo', hi' := ComponentAround(parts[1..], a - n - 1, b - n - 1);
      k, lo, hi := k + 1, lo' + n + 1, hi' + n + 1;
      CutMiddle(s, n + 1, lo', hi');
    }
  }

  // ---- when the components decide ----

  /** Some `**` stands between two pieces that are no runs. */
  ghost predicate Crosses(pieces: seq<Piece>) {
    exists i, j, k :: 0 <= i < j < k < |pieces| &&
      !Run(pieces[i]) && pieces[j].DoubleStar? && !Run(pieces[k])
  }

  ghost predicate OnlyDot(piece: Piece, oracle: ClassOracle) {
    !Run(piece) && forall c :: TakesChar(piece, c, oracle) <==> c == '.'
  }

  /** The piece takes every character that may stand before a slash once the runs have had theirs: any but a
      slash, and a newline only if some `*` could take it. */
  ghost predicate TakesWhatMayCome(piece: Piece, runs: seq<Piece>, oracle: ClassOracle) {
    !Run(piece) &&
    forall c :: c != '/' && (c == '\n' ==> StarThenDoubleStar(runs)) ==> TakesChar(piece, c, oracle)
  }

  /** A dot first and, but for runs, only piece k besides, which takes whatever may come: as in `.**?`. */
  ghost predicate DotThenAnything(pieces: seq<Piece>, k: int, oracle: ClassOracle) {
    0 < k < |pieces| && OnlyDot(pieces[0], oracle) && AllRuns(pieces[1..k]) && AllRuns(pieces[k + 1..]) &&
    TakesWhatMayCome(pieces[k], pieces[1..k], oracle)
  }

  ghost predicate DotRule(pieces: seq<Piece>, oracle: ClassOracle) {
    exists k :: DotThenAnything(pieces, k, oracle)
  }

  ghost predicate ComponentsDecide(pieces: seq<Piece>, oracle: ClassOracle) {
    !Crosses(pieces) || DotRule(pieces, oracle)
  }

  /** Some component is found, on a path where the whole is. */
  ghost predicate SomePart(pieces: seq<Piece>, parts: seq<string>, oracle: ClassOracle) {
    exists k :: 0 <= k < |parts| && Search(Items(pieces), parts[k], oracle)
  }

  // ---- sufficient ----

  /** Cut out of what the pieces take, around what the middle takes, stays something they take. */
  lemma TakesAround(l: seq<Piece>, m: seq<Piece>, r: seq<Piece>, x: string, y: string, z: string, i: nat, j: nat, oracle: ClassOracle)
    requires AllRuns(l) && AllRuns(r) && i <= |x| && j <= |z|
    requires Takes(l, x, oracle) && Takes(m, y, oracle) && Takes(r, z, oracle)
    ensures Takes(l + m + r, x[i..] + y + z[..j], oracle)
  {
    RunsTakeSuffix(l, x, i, oracle);
    RunsTakePrefix(r, z, j, oracle);
    TakesConcat(l, m, x[i..], y, oracle);
    TakesConcat(l + m, r, x[i..] + y, z[..j], oracle);
  }

  lemma SliceOfSlices(t: string, a: nat, b: nat, lo: nat, cut: nat)
    requires lo <= a <= b <= cut <= |t|
    ensures t[..a][lo..] + t[a..b] + t[b..][..cut - b] == t[lo..cut]
  {
  }

  lemma TakesCut(l: seq<Piece>, m: seq<Piece>, r: seq<Piece>, t: string, a: nat, b: nat, lo: nat, cut: nat, oracle: ClassOracle)
    requires AllRuns(l) && AllRuns(r) && lo <= a <= b <= cut <= |t|
    requires Takes(l, t[..a], oracle) && Takes(m, t[a..b], oracle) && Takes(r, t[b..], oracle)
    ensures Takes(l + m + r, t[lo..cut], oracle)
  {
    SliceOfSlices(t, a, b, lo, cut);
    TakesAround(l, m, r, t[..a], t[a..b], t[b..], lo, cut - b, oracle);
  }

  /** Without a crossing the pieces are runs, a stretch without `**`, and runs. */
  lemma StretchOf(pieces: seq<Piece>) returns (m: nat, e: nat)
    requires !Crosses(pieces)
    ensures m <= e <= |pieces| && AllRuns(pieces[..m]) && NoDoubleStar(pieces[m..e]) && AllRuns(pieces[e..])
  {
    m := 0;
    while m < |pieces| && Run(pieces[m])
      invariant m <= |pieces| && AllRuns(pieces[..m])
    {
      m := m + 1;
    }
    e := |pieces|;
    while e > m && Run(pieces[e - 1])
      invariant m <= e <= |pieces| && AllRuns(pieces[e..])
    {
      e := e - 1;
    }
    forall j | 0 <= j < |pieces[m..e]| ensures !pieces[m..e][j].DoubleStar? {
      assert pieces[m..e][j] == pieces[m + j];
    }
  }

  /** t is the whole path, or the path without a final newline that `$` overlooks. */
  ghost predicate Shown(path: string, t: string) {
    t == path || (path != "" && path[|path| - 1] == '\n' && t == path[..|path| - 1])
  }

  lemma SearchIsShown(pieces: seq<Piece>, path: string, oracle: ClassOracle)
    ensures Search(Items(pieces), path, oracle) <==> exists t :: Shown(path, t) && Takes(pieces, t, oracle)
  {
    TakesIsAccepts(pieces, path, oracle);
    if path != "" {
      TakesIsAccepts(pieces, path[..|path| - 1], oracle);
      assert path[|path| - 1] == '\n' ==> Shown(path, path[..|path| - 1]);
    }
    assert Shown(path, path);
  }

  /** A component, cut off where t ends, is what the component shows. */
  lemma PartShown(path: string, t: string, lo: nat, hi: nat)
    requires Shown(path, t) && lo <= hi <= |path| && lo <= |t|
    ensures var cut := if hi <= |t| then hi else |t|; lo <= cut ==> Shown(path[lo..hi], t[lo..cut])
  {
    if hi <= |t| {
      assert path[lo..hi] == t[lo..hi];
    } else {
      assert hi == |path| && path[lo..hi][hi - lo - 1] == '\n';
      assert path[lo..hi][..hi - lo - 1] == t[lo..];
    }
  }

  lemma TakesInThree(l: seq<Piece>, m: seq<Piece>, r: seq<Piece>, t: string, oracle: ClassOracle) returns (a: nat, b: nat)
    requires Takes(l + m + r, t, oracle)
    ensures a <= b <= |t| && Takes(l, t[..a], oracle) && Takes(m, t[a..b], oracle) && Takes(r, t[b..], oracle)
  {
    b := TakesSplit(l + m, r, t, oracle);
    a := TakesSplit(l, m, t[..b], oracle);
    assert t[..b][..a] == t[..a] && t[..b][a..] == t[a..b];
  }

  lemma StretchDecides(pieces: seq<Piece>, parts: seq<string>, t: string, oracle: ClassOracle)
    requires !Crosses(pieces) && NoSlashTaken(pieces, oracle) && parts != []
    requires Shown(Path(parts), t) && Takes(pieces, t, oracle)
    ensures SomePart(pieces, parts, oracle)
  {
    var m, e := StretchOf(pieces);
    assert pieces == pieces[..m] + pieces[m..e] + pieces[e..];
    MiddleDecides(pieces[..m], pieces[m..e], pieces[e..], parts, t, oracle);
  }

  lemma StretchIsWithin(l: seq<Piece>, m: seq<Piece>, r: seq<Piece>, y: string, oracle: ClassOracle)
    requires NoDoubleStar(m) && NoSlashTaken(l + m + r, oracle) && Takes(m, y, oracle)
    ensures '/' !in y
  {
    forall j | 0 <= j < |m| && !Run(m[j]) ensures !TakesChar(m[j], '/', oracle) {
      assert (l + m + r)[|l| + j] == m[j];
    }
    SlashNeedsDoubleStar(m, y, oracle);
  }

  lemma FoundIn(pieces: seq<Piece>, parts: seq<string>, t: string, k: nat, lo: nat, hi: nat, oracle: ClassOracle)
    requires k < |parts| && lo <= hi <= |Path(parts)| && parts[k] == Path(parts)[lo..hi] && Shown(Path(parts), t)
    requires var cut := if hi <= |t| then hi else |t|; lo <= cut && Takes(pieces, t[lo..cut], oracle)
    ensures SomePart(pieces, parts, oracle)
  {
    PartShown(Path(parts), t, lo, hi);
    SearchIsShown(pieces, parts[k], oracle);
  }

  lemma ComponentOfStretch(parts: seq<string>, t: string, a: nat, b: nat) returns (k: nat, lo: nat, hi: nat)
    requires parts != [] && Shown(Path(parts), t) && a <= b <= |t| && '/' !in t[a..b]
    ensures k < |parts| && lo <= a && b <= hi <= |Path(parts)| && parts[k] == Path(parts)[lo..hi]
  {
    assert Path(parts)[a..b] == t[a..b];
    k, lo, hi := ComponentAround(parts, a, b);
  }

  lemma MiddleDecides(l: seq<Piece>, m: seq<Piece>, r: seq<Piece>, parts: seq<string>, t: string, oracle: ClassOracle)
    requires AllRuns(l) && AllRuns(r) && NoDoubleStar(m) && NoSlashTaken(l + m + r, oracle) && parts != []
    requires Shown(Path(parts), t) && Takes(l + m + r, t, oracle)
    ensures SomePart(l + m + r, parts, oracle)
  {
    var a, b := TakesInThree(l, m, r, t, oracle);
    StretchIsWithin(l, m, r, t[a..b], oracle);
    var k, lo, hi := ComponentOfStretch(parts, t, a, b);
    TakesCut(l, m, r, t, a, b, lo, if hi <= |t| then hi else |t|, oracle);
    FoundIn(l + m + r, parts, t, k, lo, hi, oracle);
  }

  /** A rule of the second kind always finds the first component. */
  lemma DotDecides(pieces: seq<Piece>, k: nat, parts: seq<string>, t: string, oracle: ClassOracle)
    requires DotThenAnything(pieces, k, oracle) && NoSlashTaken(pieces, oracle) && Normal(parts)
    requires Shown(Path(parts), t) && Takes(pieces, t, oracle)
    ensures SomePart(pieces, parts, oracle)
  {
    SearchIsShown(pieces, parts[0], oracle);
    if |parts| == 1 {
    } else {
      var h := |parts[0]|;
      FirstPart(parts, t);
      DotTakesFirst(pieces, k, t, h, oracle);
      assert Shown(parts[0], parts[0]);
    }
  }

  lemma FirstPart(parts: seq<string>, t: string)
    requires Normal(parts) && |parts| > 1 && Shown(Path(parts), t)
    ensures var h := |parts[0]|;
            0 < h < |t| && t[h] == '/' && t[..h] == parts[0] && t[..h] != "." && '/' !in t[..h]
  {
    var h, s := |parts[0]|, Path(parts);
    assert s == parts[0] + "/" + Path(parts[1..]) && RealName(parts[0]) && RealName(parts[1]);
    assert s[h] == '/';
    assert |Path(parts[1..])| > 0;
    assert |s| > h + 1;
  }

  /** What the four stretches of such a rule have taken. */
  lemma DotSplit(pieces: seq<Piece>, k: nat, t: string, oracle: ClassOracle) returns (q: nat)
    requires DotThenAnything(pieces, k, oracle) && Takes(pieces, t, oracle)
    ensures 0 < q < |t| && t[0] == '.' && TakesChar(pieces[k], t[q], oracle)
    ensures Takes(pieces[1..k], t[1..q], oracle) && Takes(pieces[k + 1..], t[q + 1..], oracle)
  {
    assert pieces == pieces[..1] + pieces[1..k] + pieces[k..] && pieces[..1] == [pieces[0]];
    var one;
    one, q := TakesInThree(pieces[..1], pieces[1..k], pieces[k..], t, oracle);
    TakesOne(pieces[0], t[..one], oracle);
    assert one == 1 && t[..1][0] == t[0];
    var i :| 0 <= i <= |t[q..]| && TakesPart(pieces[k..][0], t[q..][..i], oracle) && Takes(pieces[k..][1..], t[q..][i..], oracle);
    assert i == 1 && t[q..][..1][0] == t[q] && t[q..][1..] == t[q + 1..];
    assert pieces[k..][1..] == pieces[k + 1..];
  }

  lemma DotJoin(pieces: seq<Piece>, k: nat, x: string, c: char, z: string, oracle: ClassOracle)
    requires DotThenAnything(pieces, k, oracle) && TakesChar(pieces[k], c, oracle)
    requires Takes(pieces[1..k], x, oracle) && Takes(pieces[k + 1..], z, oracle)
    ensures Takes(pieces, "." + x + [c] + z, oracle)
  {
    TakesOne(pieces[0], ".", oracle);
    TakesOne(pieces[k], [c], oracle);
    DotParts([pieces[0]], pieces[1..k], [pieces[k]], pieces[k + 1..], ".", x, [c], z, oracle);
    assert pieces == [pieces[0]] + pieces[1..k] + [pieces[k]] + pieces[k + 1..];
  }

  /** The first slash comes after the other piece, so the run that has it is cut short. */
  lemma DotCutAfter(pieces: seq<Piece>, k: nat, t: string, h: nat, q: nat, oracle: ClassOracle)
    requires DotThenAnything(pieces, k, oracle) && 0 < q < h <= |t| && t[0] == '.' && TakesChar(pieces[k], t[q], oracle)
    requires Takes(pieces[1..k], t[1..q], oracle) && Takes(pieces[k + 1..], t[q + 1..], oracle)
    ensures Takes(pieces, t[..h], oracle)
  {
    RunsTakePrefix(pieces[k + 1..], t[q + 1..], h - q - 1, oracle);
    DotJoin(pieces, k, t[1..q], t[q], t[q + 1..][..h - q - 1], oracle);
    DotTextAfter(t, h, q);
  }

  lemma DotTextAfter(t: string, h: nat, q: nat)
    requires 0 < q < h <= |t| && t[0] == '.'
    ensures "." + t[1..q] + [t[q]] + t[q + 1..][..h - q - 1] == t[..h]
  {
    assert t[q + 1..][..h - q - 1] == t[q + 1..h];
    assert t[..h] == t[..1] + t[1..q] + t[q..q + 1] + t[q + 1..h];
    assert t[..1] == "." && t[q..q + 1] == [t[q]];
  }

  lemma DotText(t: string, h: nat, q: nat)
    requires 1 < h < q < |t| && t[0] == '.'
    ensures "." + t[1..q][..h - 2] + [t[h - 1]] + "" == t[..h]
  {
    assert t[1..q][..h - 2] == t[1..h - 1];
    assert t[..h] == t[..1] + t[1..h - 1] + t[h - 1..h];
    assert t[..1] == "." && t[h - 1..h] == [t[h - 1]];
  }

  /** The first slash comes before the other piece, which then takes the character before the slash. */
  lemma DotCutBefore(pieces: seq<Piece>, k: nat, t: string, h: nat, q: nat, oracle: ClassOracle)
    requires DotThenAnything(pieces, k, oracle) && 1 < h < q < |t| && t[0] == '.' && t[h] == '/' && t[h - 1] != '/'
    requires Takes(pieces[1..k], t[1..q], oracle)
    ensures Takes(pieces, t[..h], oracle)
  {
    var runs, x, c := pieces[1..k], t[1..q], t[h - 1];
    if c == '\n' {
      NewlineThenSlash(runs, x, h - 2, oracle);
    }
    RunsTakePrefix(runs, x, h - 2, oracle);
    RunsTakeNothing(pieces[k + 1..], oracle);
    DotJoin(pieces, k, x[..h - 2], c, "", oracle);
    DotText(t, h, q);
  }

  lemma DotTakesFirst(pieces: seq<Piece>, k: nat, t: string, h: nat, oracle: ClassOracle)
    requires DotThenAnything(pieces, k, oracle) && NoSlashTaken(pieces, oracle) && Takes(pieces, t, oracle)
    requires 0 < h < |t| && t[h] == '/' && t[..h] != "." && '/' !in t[..h]
    ensures Takes(pieces, t[..h], oracle)
  {
    var q := DotSplit(pieces, k, t, oracle);
    assert t[..h][h - 1] == t[h - 1];
    assert t[..1] == ".";
    if h > q {
      DotCutAfter(pieces, k, t, h, q, oracle);
    } else {
      DotCutBefore(pieces, k, t, h, q, oracle);
    }
  }

  lemma DotParts(a: seq<Piece>, b: seq<Piece>, c: seq<Piece>, d: seq<Piece>,
                 w: string, x: string, y: string, z: string, oracle: ClassOracle)
    requires Takes(a, w, oracle) && Takes(b, x, oracle) && Takes(c, y, oracle) && Takes(d, z, oracle)
    ensures Takes(a + b + c + d, w + x + y + z, oracle)
  {
    TakesConcat(a, b, w, x, oracle);
    TakesConcat(a + b, c, w + x, y, oracle);
    TakesConcat(a + b + c, d, w + x + y, z, oracle);
  }

  /** One way: a whole path that is found has a component that is found. */
  lemma ComponentsSuffice(pieces: seq<Piece>, parts: seq<string>, oracle: ClassOracle)
    requires ComponentsDecide(pieces, oracle) && NoSlashTaken(pieces, oracle) && Normal(parts)
    requires Search(Items(pieces), Path(parts), oracle)
    ensures SomePart(pieces, parts, oracle)
  {
    SearchIsShown(pieces, Path(parts), oracle);
    var t :| Shown(Path(parts), t) && Takes(pieces, t, oracle);
    if !Crosses(pieces) {
      StretchDecides(pieces, parts, t, oracle);
    } else {
      var k :| DotThenAnything(pieces, k, oracle);
      DotDecides(pieces, k, parts, t, oracle);
    }
  }

  // ---- necessary ----

  /** The pieces that are no runs, in order: each of them needs a character. */
  function Musts(pieces: seq<Piece>): seq<Piece> {
    if pieces == [] then [] else (if Run(pieces[0]) then [] else [pieces[0]]) + Musts(pieces[1..])
  }

  lemma {:induction false} MustsConcat(a: seq<Piece>, b: seq<Piece>)
    ensures Musts(a + b) == Musts(a) + Musts(b)
  {
    if a == [] {
      assert a + b == b;
    } else {
      MustsConcat(a[1..], b);
      HeadAndTail(a, b);
      Regroup(if Run(a[0]) then [] else [a[0]], Musts(a[1..]), Musts(b));
    }
  }

  lemma {:induction false} MustsOfRuns(pieces: seq<Piece>)
    ensures Musts(pieces) == [] <==> AllRuns(pieces)
    ensures forall piece :: piece in Musts(pieces) <==> piece in pieces && !Run(piece)
  {
    if pieces != [] {
      MustsOfRuns(pieces[1..]);
      assert forall j :: 0 < j < |pieces| ==> pieces[j] == pieces[1..][j - 1];
      assert forall piece :: piece in pieces <==> piece == pieces[0] || piece in pieces[1..];
    }
  }

  /** The string is long enough for the pieces, and if just so, each takes its character. */
  ghost predicate Fits(musts: seq<Piece>, t: string, oracle: ClassOracle) {
    |musts| <= |t| && (|musts| == |t| ==> forall i :: 0 <= i < |t| ==> TakesChar(musts[i], t[i], oracle))
  }

  lemma FitsCons(musts: seq<Piece>, t: string, oracle: ClassOracle)
    requires musts != [] && t != "" && TakesChar(musts[0], t[0], oracle) && Fits(musts[1..], t[1..], oracle)
    ensures Fits(musts, t, oracle)
  {
    if |musts| == |t| {
      forall i | 0 <= i < |t| ensures TakesChar(musts[i], t[i], oracle) {
        if i > 0 {
          assert musts[i] == musts[1..][i - 1] && t[i] == t[1..][i - 1];
        }
      }
    }
  }

  lemma FitsLater(musts: seq<Piece>, t: string, k: nat, oracle: ClassOracle)
    requires k <= |t| && Fits(musts, t[k..], oracle)
    ensures Fits(musts, t, oracle)
  {
    if k == 0 {
      assert t[0..] == t;
    }
  }

  /** The pieces take no string that does not fit. */
  lemma {:induction false} TakenFits(pieces: seq<Piece>, t: string, oracle: ClassOracle)
    requires Takes(pieces, t, oracle)
    ensures Fits(Musts(pieces), t, oracle)
  {
    if pieces != [] {
      var k :| 0 <= k <= |t| && TakesPart(pieces[0], t[..k], oracle) && Takes(pieces[1..], t[k..], oracle);
      TakenFits(pieces[1..], t[k..], oracle);
      if Run(pieces[0]) {
        FitsLater(Musts(pieces[1..]), t, k, oracle);
        assert Musts(pieces) == Musts(pieces[1..]);
      } else {
        assert k == 1 && t[..1][0] == t[0];
        assert Musts(pieces)[0] == pieces[0] && Musts(pieces)[1..] == Musts(pieces[1..]);
        FitsCons(Musts(pieces), t, oracle);
      }
    }
  }

  /** Every piece that is no run takes some character, but no slash. */
  ghost predicate Fillable(pieces: seq<Piece>, oracle: ClassOracle) {
    NoSlashTaken(pieces, oracle) &&
    forall j :: 0 <= j < |pieces| && !Run(pieces[j]) ==> exists c :: TakesChar(pieces[j], c, oracle)
  }

  /** A character for the piece, and not the dot if there is another. */
  ghost function Pick(piece: Piece, oracle: ClassOracle): (c: char)
    ensures (exists c :: TakesChar(piece, c, oracle)) ==> TakesChar(piece, c, oracle)
    ensures c == '.' && !Run(piece) && (exists c :: TakesChar(piece, c, oracle)) ==> OnlyDot(piece, oracle)
  {
    if exists c :: c != '.' && TakesChar(piece, c, oracle)
    then var c :| c != '.' && TakesChar(piece, c, oracle); c
    else '.'
  }

  ghost function Word(pieces: seq<Piece>, oracle: ClassOracle): (w: string)
    ensures |w| == |Musts(pieces)| && forall i :: 0 <= i < |w| ==> w[i] == Pick(Musts(pieces)[i], oracle)
  {
    if pieces == [] then ""
    else (if Run(pieces[0]) then "" else [Pick(pieces[0], oracle)]) + Word(pieces[1..], oracle)
  }

  /** A shortest string the pieces take. */
  lemma {:induction false} WordIsTaken(pieces: seq<Piece>, oracle: ClassOracle)
    requires Fillable(pieces, oracle)
    ensures Takes(pieces, Word(pieces, oracle), oracle)
  {
    if pieces != [] {
      forall j | 0 <= j < |pieces[1..]| && !Run(pieces[1..][j]) ensures exists c :: TakesChar(pieces[1..][j], c, oracle)
      {
        assert pieces[1..][j] == pieces[j + 1];
      }
      WordIsTaken(pieces[1..], oracle);
      var w, k := Word(pieces, oracle), if Run(pieces[0]) then 0 else 1;
      assert w[k..] == Word(pieces[1..], oracle);
      assert !Run(pieces[0]) ==> w[..1] == [Pick(pieces[0], oracle)];
      assert TakesPart(pieces[0], w[..k], oracle);
    }
  }

  lemma WordHasNoSlash(pieces: seq<Piece>, oracle: ClassOracle)
    requires Fillable(pieces, oracle)
    ensures '/' !in Word(pieces, oracle)
  {
    var w := Word(pieces, oracle);
    WordIsTaken(pieces, oracle);
    TakenFits(pieces, w, oracle);
    MustsOfRuns(pieces);
    forall i | 0 <= i < |w| ensures w[i] != '/' {
      assert Musts(pieces)[i] in Musts(pieces);
    }
  }

  /** One run takes the string, the others take nothing. */
  lemma {:induction false} OneRunTakes(runs: seq<Piece>, d: nat, t: string, oracle: ClassOracle)
    requires AllRuns(runs) && d < |runs| && TakesPart(runs[d], t, oracle)
    ensures Takes(runs, t, oracle)
    decreases d
  {
    if d == 0 {
      RunsTakeNothing(runs[1..], oracle);
      assert t[..|t|] == t && t[|t|..] == "";
    } else {
      OneRunTakes(runs[1..], d - 1, t, oracle);
      assert t[..0] == "" && t[0..] == t && TakesPart(runs[0], "", oracle);
    }
  }

  lemma {:induction false} TwoRunsTake(runs: seq<Piece>, i: nat, j: nat, oracle: ClassOracle)
    requires AllRuns(runs) && i < j < |runs| && runs[i].Star? && runs[j].DoubleStar?
    ensures Takes(runs, "\n/", oracle)
    decreases i
  {
    var t := "\n/";
    if i == 0 {
      OneRunTakes(runs[1..], j - 1, "/", oracle);
      assert t[..1] == "\n" && t[1..] == "/";
    } else {
      TwoRunsTake(runs[1..], i - 1, j - 1, oracle);
      assert t[..0] == "" && t[0..] == t && TakesPart(runs[0], "", oracle);
    }
  }

  /** Runs with a `**` among them take a filler and a slash. */
  lemma RunsTakeFiller(runs: seq<Piece>, d: nat, f: char, oracle: ClassOracle)
    requires AllRuns(runs) && d < |runs| && runs[d].DoubleStar? && f != '/'
    requires f == '\n' ==> StarThenDoubleStar(runs)
    ensures Takes(runs, [f] + "/", oracle) && Takes(runs, "/", oracle)
  {
    OneRunTakes(runs, d, "/", oracle);
    if f != '\n' {
      OneRunTakes(runs, d, [f] + "/", oracle);
    } else {
      var i, j :| 0 <= i < j < |runs| && runs[i].Star? && runs[j].DoubleStar?;
      TwoRunsTake(runs, i, j, oracle);
      assert [f] + "/" == "\n/";
    }
  }

  lemma TakesUpTo(pieces: seq<Piece>, d: nat, k: nat, x: string, y: string, oracle: ClassOracle)
    requires d <= k <= |pieces| && Takes(pieces[..d], x, oracle) && Takes(pieces[d..k], y, oracle)
    ensures Takes(pieces[..k], x + y, oracle)
  {
    TakesConcat(pieces[..d], pieces[d..k], x, y, oracle);
    assert pieces[..k] == pieces[..d] + pieces[d..k];
  }

  /** Where the pieces are cut: before the `**` at d, and at piece k, the first after it that is no run. */
  ghost predicate CrossedAt(pieces: seq<Piece>, d: nat, k: nat) {
    d < k < |pieces| && pieces[d].DoubleStar? && AllRuns(pieces[d..k]) && !Run(pieces[k]) && Musts(pieces[..d]) != []
  }

  lemma CrossingCut(pieces: seq<Piece>) returns (d: nat, k: nat)
    requires Crosses(pieces)
    ensures CrossedAt(pieces, d, k)
  {
    var i, j, last :| 0 <= i < j < last < |pieces| && !Run(pieces[i]) && pieces[j].DoubleStar? && !Run(pieces[last]);
    d, k := j, j + 1;
    while Run(pieces[k])
      invariant j < k <= last && AllRuns(pieces[j..k])
      decreases last - k
    {
      assert pieces[j..k + 1] == pieces[j..k] + [pieces[k]];
      k := k + 1;
    }
    MustsOfRuns(pieces[..d]);
    assert pieces[..d][i] == pieces[i];
  }

  lemma MustsOfCut(pieces: seq<Piece>, d: nat, k: nat)
    requires CrossedAt(pieces, d, k)
    ensures Musts(pieces) == Musts(pieces[..d]) + Musts(pieces[k..])
    ensures Musts(pieces[k..]) != [] && Musts(pieces[k..])[0] == pieces[k]
  {
    MustsConcat(pieces[..d], pieces[d..k]);
    MustsConcat(pieces[..d] + pieces[d..k], pieces[k..]);
    MustsOfRuns(pieces[d..k]);
    assert pieces == pieces[..d] + pieces[d..k] + pieces[k..];
  }

  lemma FillableParts(pieces: seq<Piece>, d: nat, k: nat, oracle: ClassOracle)
    requires Fillable(pieces, oracle) && d <= k <= |pieces|
    ensures Fillable(pieces[..d], oracle) && Fillable(pieces[k..], oracle)
  {
    forall j | 0 <= j < |pieces[k..]| ensures pieces[k..][j] == pieces[k + j] {}
    forall j | 0 <= j < |pieces[..d]| ensures pieces[..d][j] == pieces[j] {}
  }

  /** The first component of the witness: it fits before the slash, yet the rule does not find it. */
  ghost predicate FirstWitness(pieces: seq<Piece>, k: nat, x: string, oracle: ClassOracle)
    requires k <= |pieces|
  {
    RealName(x) && '/' !in x && !Search(Items(pieces), x, oracle) && Takes(pieces[..k], x + "/", oracle)
  }

  lemma ShortIsNotFound(pieces: seq<Piece>, x: string, oracle: ClassOracle)
    requires |x| < |Musts(pieces)|
    ensures !Search(Items(pieces), x, oracle)
  {
    SearchIsShown(pieces, x, oracle);
    forall t | Shown(x, t) ensures !Takes(pieces, t, oracle) {
      if Takes(pieces, t, oracle) {
        TakenFits(pieces, t, oracle);
      }
    }
  }

  /** A string of just the length needed, with a character its piece does not take, is not found. */
  lemma MisfitIsNotFound(pieces: seq<Piece>, x: string, i: nat, oracle: ClassOracle)
    requires |x| <= |Musts(pieces)| && i < |x| && !TakesChar(Musts(pieces)[i], x[i], oracle)
    ensures !Search(Items(pieces), x, oracle)
  {
    SearchIsShown(pieces, x, oracle);
    forall t | Shown(x, t) ensures !Takes(pieces, t, oracle) {
      if Takes(pieces, t, oracle) {
        TakenFits(pieces, t, oracle);
      }
    }
  }

  lemma WordThenSlash(pieces: seq<Piece>, d: nat, k: nat, oracle: ClassOracle)
    requires CrossedAt(pieces, d, k) && Fillable(pieces, oracle)
    ensures Takes(pieces[..k], Word(pieces[..d], oracle) + "/", oracle)
  {
    FillableParts(pieces, d, k, oracle);
    WordIsTaken(pieces[..d], oracle);
    RunsTakeFiller(pieces[d..k], 0, 'a', oracle);
    TakesUpTo(pieces, d, k, Word(pieces[..d], oracle), "/", oracle);
  }

  lemma FirstWord(pieces: seq<Piece>, d: nat, k: nat, oracle: ClassOracle)
    requires CrossedAt(pieces, d, k) && Fillable(pieces, oracle) && Word(pieces[..d], oracle) != "."
    ensures FirstWitness(pieces, k, Word(pieces[..d], oracle), oracle)
  {
    FillableParts(pieces, d, k, oracle);
    WordHasNoSlash(pieces[..d], oracle);
    MustsOfCut(pieces, d, k);
    ShortIsNotFound(pieces, Word(pieces[..d], oracle), oracle);
    WordThenSlash(pieces, d, k, oracle);
  }

  /** A run and a word after it take a filler and the word. */
  lemma LeadTakes(p: seq<Piece>, oracle: ClassOracle)
    requires p != [] && Run(p[0]) && Fillable(p, oracle) && Word(p, oracle) == "."
    ensures Takes(p, "a.", oracle)
  {
    FillableParts(p, 0, 1, oracle);
    WordIsTaken(p[1..], oracle);
    assert Word(p, oracle) == "" + Word(p[1..], oracle) == Word(p[1..], oracle);
    var t := "a.";
    assert t[..1] == "a" && t[1..] == ".";
    assert TakesPart(p[0], t[..1], oracle);
  }

  /** The only character before the `**` is a dot, with a run before it that can take another. */
  lemma FirstWithLead(pieces: seq<Piece>, d: nat, k: nat, oracle: ClassOracle)
    requires CrossedAt(pieces, d, k) && Fillable(pieces, oracle) && Word(pieces[..d], oracle) == "." && Run(pieces[0])
    ensures FirstWitness(pieces, k, "a.", oracle)
  {
    FillableParts(pieces, d, k, oracle);
    MustsOfCut(pieces, d, k);
    LoneDot(pieces[..d], oracle);
    MisfitIsNotFound(pieces, "a.", 0, oracle);
    LeadTakes(pieces[..d], oracle);
    RunsTakeFiller(pieces[d..k], 0, 'a', oracle);
    TakesUpTo(pieces, d, k, "a.", "/", oracle);
  }

  lemma LoneDot(p: seq<Piece>, oracle: ClassOracle)
    requires Fillable(p, oracle) && Word(p, oracle) == "."
    ensures |Musts(p)| == 1 && OnlyDot(Musts(p)[0], oracle)
  {
    MustsOfRuns(p);
    assert Musts(p)[0] in Musts(p);
    assert Word(p, oracle)[0] == '.';
  }

  /** The dot stands first: a filler that the next piece does not take goes after it. */
  lemma FirstWithFiller(pieces: seq<Piece>, d: nat, k: nat, oracle: ClassOracle) returns (x: string)
    requires CrossedAt(pieces, d, k) && Fillable(pieces, oracle) && Word(pieces[..d], oracle) == "." && !Run(pieces[0])
    requires !DotRule(pieces, oracle)
    ensures FirstWitness(pieces, k, x, oracle)
  {
    var p, runs := pieces[..d], pieces[1..k];
    FillableParts(pieces, d, k, oracle);
    MustsOfCut(pieces, d, k);
    LoneDot(p, oracle);
    DotIsFirst(pieces, d, k);
    var f := 'a';
    if |Musts(pieces)| == 2 {
      f := MisfitFiller(pieces, d, k, oracle);
    }
    x := "." + [f];
    if |Musts(pieces)| == 2 {
      MisfitIsNotFound(pieces, x, 1, oracle);
    } else {
      ShortIsNotFound(pieces, x, oracle);
    }
    RunsTakeFiller(runs, d - 1, f, oracle);
    TakesOne(pieces[0], ".", oracle);
    assert pieces[..1] == [pieces[0]];
    TakesUpTo(pieces, 1, k, ".", [f] + "/", oracle);
    assert "." + ([f] + "/") == x + "/";
  }

  lemma DotIsFirst(pieces: seq<Piece>, d: nat, k: nat)
    requires CrossedAt(pieces, d, k) && |Musts(pieces[..d])| == 1 && !Run(pieces[0])
    ensures 0 < d && Musts(pieces[..d])[0] == pieces[0] && AllRuns(pieces[1..k]) && pieces[1..k][d - 1].DoubleStar?
    ensures |Musts(pieces)| == 2 ==> AllRuns(pieces[k + 1..])
  {
    var p := pieces[..d];
    MustsOfCut(pieces, d, k);
    assert p[0] == pieces[0] && Musts(p) == [p[0]] + Musts(p[1..]);
    MustsOfRuns(p[1..]);
    forall j | 0 <= j < |pieces[1..k]| ensures Run(pieces[1..k][j]) {
      assert if j + 1 < d then pieces[1..k][j] == p[1..][j] else pieces[1..k][j] == pieces[d..k][j + 1 - d];
    }
    assert pieces[k..][1..] == pieces[k + 1..];
    MustsOfRuns(pieces[k + 1..]);
  }

  lemma MisfitFiller(pieces: seq<Piece>, d: nat, k: nat, oracle: ClassOracle) returns (f: char)
    requires CrossedAt(pieces, d, k) && !DotRule(pieces, oracle) && OnlyDot(pieces[0], oracle)
    requires 0 < k && AllRuns(pieces[1..k]) && AllRuns(pieces[k + 1..])
    ensures f != '/' && (f == '\n' ==> StarThenDoubleStar(pieces[1..k])) && !TakesChar(pieces[k], f, oracle)
  {
    assert !DotThenAnything(pieces, k, oracle);
    f :| f != '/' && (f == '\n' ==> StarThenDoubleStar(pieces[1..k])) && !TakesChar(pieces[k], f, oracle);
  }

  /** The other way: a path that is found as a whole while none of its components is. */
  lemma ComponentsFail(pieces: seq<Piece>, oracle: ClassOracle) returns (parts: seq<string>)
    requires Fillable(pieces, oracle) && !ComponentsDecide(pieces, oracle)
    ensures Normal(parts) && Search(Items(pieces), Path(parts), oracle) && !SomePart(pieces, parts, oracle)
  {
    var d, k := CrossingCut(pieces);
    var u := Word(pieces[..d], oracle);
    var x: string;
    if u != "." {
      FirstWord(pieces, d, k, oracle);
      x := u;
    } else if Run(pieces[0]) {
      FirstWithLead(pieces, d, k, oracle);
      x := "a.";
    } else {
      x := FirstWithFiller(pieces, d, k, oracle);
    }
    parts := SecondComponent(pieces, d, k, x, oracle);
  }

  /** The word of the pieces from k on, but a lone dot, which is no component, gets a newline after it that
      `$` overlooks. */
  ghost function LastWord(pieces: seq<Piece>, oracle: ClassOracle): string {
    var v := Word(pieces, oracle);
    if v == "." then ".\n" else v
  }

  lemma TakesBoth(pieces: seq<Piece>, k: nat, x: string, y: string, oracle: ClassOracle)
    requires k <= |pieces| && Takes(pieces[..k], x, oracle) && Takes(pieces[k..], y, oracle)
    ensures Takes(pieces, x + y, oracle)
  {
    TakesConcat(pieces[..k], pieces[k..], x, y, oracle);
    assert pieces == pieces[..k] + pieces[k..];
  }

  lemma ShownWord(front: string, v: string)
    ensures Shown(front + (if v == "." then ".\n" else v), front + v)
  {
    if v == "." {
      assert (front + ".\n")[..|front| + 1] == front + ".";
    }
  }

  lemma WholeIsFound(pieces: seq<Piece>, k: nat, front: string, v: string, oracle: ClassOracle)
    requires k <= |pieces| && Takes(pieces[..k], front, oracle) && Takes(pieces[k..], v, oracle)
    ensures Search(Items(pieces), front + (if v == "." then ".\n" else v), oracle)
  {
    TakesBoth(pieces, k, front, v, oracle);
    ShownWord(front, v);
    FoundShown(pieces, front + (if v == "." then ".\n" else v), front + v, oracle);
  }

  lemma FoundShown(pieces: seq<Piece>, path: string, t: string, oracle: ClassOracle)
    requires Shown(path, t) && Takes(pieces, t, oracle)
    ensures Search(Items(pieces), path, oracle)
  {
    SearchIsShown(pieces, path, oracle);
  }

  lemma LastWordIsNotFound(pieces: seq<Piece>, d: nat, k: nat, oracle: ClassOracle)
    requires CrossedAt(pieces, d, k) && Fillable(pieces, oracle)
    ensures var y := LastWord(pieces[k..], oracle);
            RealName(y) && '/' !in y && !Search(Items(pieces), y, oracle)
  {
    FillableParts(pieces, d, k, oracle);
    WordHasNoSlash(pieces[k..], oracle);
    MustsOfCut(pieces, d, k);
    if Word(pieces[k..], oracle) == "." {
      LoneDot(pieces[k..], oracle);
      LaterMisfit(pieces, d, k, oracle);
    } else {
      ShortIsNotFound(pieces, Word(pieces[k..], oracle), oracle);
    }
  }

  lemma SecondComponent(pieces: seq<Piece>, d: nat, k: nat, x: string, oracle: ClassOracle) returns (parts: seq<string>)
    requires CrossedAt(pieces, d, k) && Fillable(pieces, oracle) && FirstWitness(pieces, k, x, oracle)
    ensures Normal(parts) && Search(Items(pieces), Path(parts), oracle) && !SomePart(pieces, parts, oracle)
  {
    var y := LastWord(pieces[k..], oracle);
    parts := [x, y];
    FillableParts(pieces, d, k, oracle);
    WordIsTaken(pieces[k..], oracle);
    WholeIsFound(pieces, k, x + "/", Word(pieces[k..], oracle), oracle);
    LastWordIsNotFound(pieces, d, k, oracle);
    assert Path(parts) == x + "/" + y;
  }

  lemma LaterMisfit(pieces: seq<Piece>, d: nat, k: nat, oracle: ClassOracle)
    requires CrossedAt(pieces, d, k) && |Musts(pieces[k..])| == 1 && OnlyDot(Musts(pieces[k..])[0], oracle)
    ensures !Search(Items(pieces), ".\n", oracle)
  {
    MustsOfCut(pieces, d, k);
    if |Musts(pieces)| > 2 {
      ShortIsNotFound(pieces, ".\n", oracle);
    } else {
      assert Musts(pieces)[1] == Musts(pieces[k..])[0];
      MisfitIsNotFound(pieces, ".\n", 1, oracle);
    }
  }

  // ---- rules ----

  /** Every bracket class of the glob takes some character, but no slash. */
  ghost predicate ProperClasses(p: string, oracle: ClassOracle) {
    forall j :: 0 <= j < |Pieces(p)| && Pieces(p)[j].Set? ==>
      !TakesChar(Pieces(p)[j], '/', oracle) && exists c :: TakesChar(Pieces(p)[j], c, oracle)
  }

  lemma {:induction false} CharsAreOfTheGlob(p: string)
    ensures forall piece :: piece in Pieces(p) && piece.Char? ==> piece.c in p
    decreases |p|
  {
    if p != "" {
      CharsAreOfTheGlob(Cut(p).1);
    }
  }

  lemma ProperIsFillable(p: string, oracle: ClassOracle)
    requires '/' !in p && ProperClasses(p, oracle)
    ensures Fillable(Pieces(p), oracle)
  {
    CharsAreOfTheGlob(p);
    forall j | 0 <= j < |Pieces(p)| && !Run(Pieces(p)[j])
      ensures !TakesChar(Pieces(p)[j], '/', oracle) && exists c :: TakesChar(Pieces(p)[j], c, oracle)
    {
      var piece := Pieces(p)[j];
      assert piece in Pieces(p);
      if piece.One? {
        assert TakesChar(piece, 'a', oracle);
      } else if piece.Char? {
        assert TakesChar(piece, piece.c, oracle);
      }
    }
  }

  /** What the rule says of a path is what it says of the components, if the directory flag allows. */
  ghost predicate SaidOfParts(rule: IgnoreRule, parts: seq<string>, isDir: bool, oracle: ClassOracle) {
    Matches(rule, Path(parts), isDir, oracle) <==>
    (rule.dirOnly ==> isDir) && exists k :: 0 <= k < |parts| && Search(rule.pattern, parts[k], oracle)
  }

  /** On all normalised paths a rule without inner slash is decided by the components alone exactly when no
      `**` stands between two of its pieces that are no runs, or it is a first dot and one piece that takes
      whatever may come. */
  lemma DecidedByComponents(raw: string, negate: bool, oracle: ClassOracle)
    requires '/' !in Clean(raw) && ClosingClasses(Pieces(Clean(raw))) && ProperClasses(Clean(raw), oracle)
    ensures RuleOf(raw, negate).Some?
    ensures (forall parts, isDir :: Normal(parts) ==> SaidOfParts(RuleOf(raw, negate).value, parts, isDir, oracle)) <==>
            ComponentsDecide(Pieces(Clean(raw)), oracle)
  {
    var pieces := Pieces(Clean(raw));
    assert GlobOf(raw) == Clean(raw);
    TextReadsBack(Clean(raw));
    ProperIsFillable(Clean(raw), oracle);
    var rule := RuleOf(raw, negate).value;
    if ComponentsDecide(pieces, oracle) {
      forall parts, isDir | Normal(parts) ensures SaidOfParts(rule, parts, isDir, oracle) {
        PartsOfPath(parts);
        if Search(rule.pattern, Path(parts), oracle) {
          ComponentsSuffice(pieces, parts, oracle);
        }
      }
    } else {
      var parts := ComponentsFail(pieces, oracle);
      assert Matches(rule, Path(parts), true, oracle);
      assert !SaidOfParts(rule, parts, true, oracle);
    }
  }

  lemma LiteralPieces()
    ensures Pieces("a**b") == [Char('a'), DoubleStar, Char('b')]
  {
    assert "a**b"[1..] == "**b" && "**b"[2..] == "b" && "b"[1..] == "";
    assert Cut("a**b") == (Char('a'), "**b") && Cut("**b") == (DoubleStar, "b") && Cut("b") == (Char('b'), "");
    assert Pieces("b") == [Char('b')] && Pieces("**b") == [DoubleStar] + Pieces("b");
  }

  /** The rule `a**b` ignores `ax/yb`, though it finds neither component. */
  lemma DoubleStarCrossesComponents(isDir: bool, oracle: ClassOracle)
    ensures var rule, path := RuleOf("a**b", false), "ax/yb";
            rule.Some? && Parts(path) == ["ax", "yb"] && Matches(rule.value, path, isDir, oracle) &&
            !Search(rule.value.pattern, "ax", oracle) && !Search(rule.value.pattern, "yb", oracle)
  {
    var raw, parts := "a**b", ["ax", "yb"];
    assert Clean(raw) == raw && GlobOf(raw) == raw;
    ClassFreeCloses(raw);
    TextReadsBack(raw);
    LiteralPieces();
    assert Path(parts[1..]) == "yb" && Path(parts) == "ax/yb";
    PartsOfPath(parts);
    CrossingMatches(oracle);
  }

  lemma CrossingMatches(oracle: ClassOracle)
    ensures var items := Items([Char('a'), DoubleStar, Char('b')]);
            Search(items, "ax/yb", oracle) && !Search(items, "ax", oracle) && !Search(items, "yb", oracle)
  {
    var pieces := [Char('a'), DoubleStar, Char('b')];
    CrossingTakes(oracle);
    FoundShown(pieces, "ax/yb", "ax/yb", oracle);
    CrossingMisses("ax", 1, oracle);
    CrossingMisses("yb", 0, oracle);
  }

  lemma CrossingMisses(x: string, i: nat, oracle: ClassOracle)
    requires |x| == 2 && i < 2 && x[i] != "ab"[i]
    ensures !Search(Items([Char('a'), DoubleStar, Char('b')]), x, oracle)
  {
    CrossingMusts();
    MisfitIsNotFound([Char('a'), DoubleStar, Char('b')], x, i, oracle);
  }

  lemma CrossingTakes(oracle: ClassOracle)
    ensures Takes([Char('a'), DoubleStar, Char('b')], "ax/yb", oracle)
  {
    TakesOne(Char('a'), "a", oracle);
    TakesOne(DoubleStar, "x/y", oracle);
    TakesOne(Char('b'), "b", oracle);
    TakesConcat([Char('a')], [DoubleStar], "a", "x/y", oracle);
    TakesConcat([Char('a')] + [DoubleStar], [Char('b')], "a" + "x/y", "b", oracle);
    assert [Char('a')] + [DoubleStar] + [Char('b')] == [Char('a'), DoubleStar, Char('b')];
    assert "a" + "x/y" + "b" == "ax/yb";
  }

  lemma CrossingMusts()
    ensures Musts([Char('a'), DoubleStar, Char('b')]) == [Char('a'), Char('b')]
  {
    MustsConcat([Char('a')], [DoubleStar, Char('b')]);
    MustsConcat([DoubleStar], [Char('b')]);
    assert [Char('a')] + [DoubleStar, Char('b')] == [Char('a'), DoubleStar, Char('b')];
    assert [DoubleStar] + [Char('b')] == [DoubleStar, Char('b')];
    assert Musts([Char('a')]) == [Char('a')] + Musts([]) && Musts([Char('b')]) == [Char('b')] + Musts([]);
  }

  lemma PiecesOfDotRule()
    ensures Pieces(".**?") == [Char('.'), DoubleStar, One]
  {
    assert ".**?"[1..] == "**?" && "**?"[2..] == "?" && "?"[1..] == "";
    assert Cut(".**?") == (Char('.'), "**?") && Cut("**?") == (DoubleStar, "?") && Cut("?") == (One, "");
    assert Pieces("?") == [One] && Pieces("**?") == [DoubleStar] + Pieces("?");
  }

  /** The rule `.**?` crosses too, and still the components decide. */
  lemma DotRuleCrosses(oracle: ClassOracle)
    ensures Crosses(Pieces(".**?")) && ComponentsDecide(Pieces(".**?"), oracle)
  {
    PiecesOfDotRule();
    DotRulePieces([Char('.'), DoubleStar, One], oracle);
  }

  lemma DotRulePieces(pieces: seq<Piece>, oracle: ClassOracle)
    requires |pieces| == 3 && pieces[0] == Char('.') && pieces[1] == DoubleStar && pieces[2] == One
    ensures Crosses(pieces) && DotThenAnything(pieces, 2, oracle)
  {
    assert !Run(pieces[0]) && pieces[1].DoubleStar? && !Run(pieces[2]);
  }
}
