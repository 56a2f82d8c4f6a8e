/** Masking: every pattern in turn replaces its matches by a placeholder, right to left
    so that the offsets of the matches still to be replaced stay valid.

    A pattern is any function from a text to matches in order and without overlap, which is
    what Python's `finditer` promises; a pattern may also raise, and is then passed over. */
module ContentMask {
  const PLACEHOLDER := "***MASKED***"
  const SHORTEST_MASKED: nat := 6
  const LONGEST_TEXT: nat := 500_000

  datatype Span = Span(start: nat, end: nat)

  datatype Found = Raised | Spans(spans: seq<Span>)

  datatype Pattern = Pattern(name: string, description: string, severity: string, find: string -> Found)

  /** Matches from position `from` on, in order and disjoint, inside a text of length n. */
  predicate Ordered(spans: seq<Span>, n: nat, from: nat) {
    if spans == [] then from <= n
    else from <= spans[0].start <= spans[0].end <= n && Ordered(spans[1..], n, spans[0].end)
  }

  ghost predicate Sound(p: Pattern) {
    forall t :: p.find(t).Spans? ==> Ordered(p.find(t).spans, |t|, 0)
  }

  predicate Long(span: Span) {
    span.end - span.start >= SHORTEST_MASKED
  }

  predicate AnyLong(spans: seq<Span>) {
    exists span :: span in spans && Long(span)
  }

  // ---- one pass ----

  /** The left-to-right rewrite of s from position `from`: long matches become the mark, all else is kept. */
  function Rewrite<T>(s: seq<T>, spans: seq<Span>, mark: seq<T>, from: nat): seq<T>
    requires Ordered(spans, |s|, from)
    decreases |spans|
  {
    if spans == [] then s[from..]
    else
      var m := spans[0];
      s[from..m.start] + (if Long(m) then mark else s[m.start..m.end]) + Rewrite(s, spans[1..], mark, m.end)
  }

  function EndBefore(spans: seq<Span>, j: nat): nat
    requires j <= |spans|
  {
    if j == 0 then 0 else spans[j - 1].end
  }

  lemma {:induction false} OrderedFrom(spans: seq<Span>, n: nat, from: nat, j: nat)
    requires Ordered(spans, n, from) && 0 < j <= |spans|
    ensures spans[j - 1].start <= spans[j - 1].end
    ensures from <= EndBefore(spans, j) && Ordered(spans[j..], n, EndBefore(spans, j))
    ensures (if j == 1 then from else EndBefore(spans, j - 1)) <= spans[j - 1].start
    decreases |spans|
  {
    if j > 1 {
      OrderedFrom(spans[1..], n, spans[0].end, j - 1);
      assert spans[1..][j - 1..] == spans[j..];
    }
  }

  lemma OrderedSuffix(spans: seq<Span>, n: nat, j: nat)
    requires Ordered(spans, n, 0) && j <= |spans|
    ensures EndBefore(spans, j) <= n && Ordered(spans[j..], n, EndBefore(spans, j))
    ensures j > 0 ==> EndBefore(spans, j - 1) <= spans[j - 1].start <= spans[j - 1].end
  {
    if j > 0 {
      OrderedFrom(spans, n, 0, j);
    }
    OrderedBound(spans[j..], n, EndBefore(spans, j));
  }

  lemma {:induction false} OrderedBound(spans: seq<Span>, n: nat, from: nat)
    requires Ordered(spans, n, from)
    ensures from <= n
  {
  }

  /** The text when the matches from j on have been replaced and those before j are still to come. */
  ghost function Spliced<T>(s: seq<T>, spans: seq<Span>, mark: seq<T>, j: nat): seq<T>
    requires Ordered(spans, |s|, 0) && j <= |spans|
  {
    OrderedSuffix(spans, |s|, j);
    s[..EndBefore(spans, j)] + Rewrite(s, spans[j..], mark, EndBefore(spans, j))
  }

  lemma SplicedEnds<T>(s: seq<T>, spans: seq<Span>, mark: seq<T>)
    requires Ordered(spans, |s|, 0)
    ensures Spliced(s, spans, mark, |spans|) == s
    ensures Spliced(s, spans, mark, 0) == Rewrite(s, spans, mark, 0)
  {
    OrderedSuffix(spans, |s|, |spans|);
    assert spans[0..] == spans;
  }

  /** Replacing one more match leaves the offsets of all earlier ones valid. */
  lemma SpliceOne<T>(s: seq<T>, spans: seq<Span>, mark: seq<T>, j: nat)
    requires Ordered(spans, |s|, 0) && 0 < j <= |spans|
    ensures var m, before := spans[j - 1], Spliced(s, spans, mark, j);
            m.start <= m.end <= |before| &&
            Spliced(s, spans, mark, j - 1) == if Long(m) then before[..m.start] + mark + before[m.end..] else before
  {
    OrderedSuffix(spans, |s|, j);
    OrderedSuffix(spans, |s|, j - 1);
    var m := spans[j - 1];
    assert spans[j - 1..][1..] == spans[j..];
    SpliceParts(s, mark, EndBefore(spans, j - 1), m, Rewrite(s, spans[j..], mark, m.end));
  }

  lemma SpliceParts<T>(s: seq<T>, mark: seq<T>, from: nat, m: Span, rest: seq<T>)
    requires from <= m.start <= m.end <= |s|
    ensures var before := s[..m.end] + rest;
            s[..from] + (s[from..m.start] + (if Long(m) then mark else s[m.start..m.end]) + rest) ==
            if Long(m) then before[..m.start] + mark + before[m.end..] else before
  {
    var before := s[..m.end] + rest;
    if Long(m) {
      assert before[..m.start] == s[..from] + s[from..m.start] && before[m.end..] == rest;
    } else {
      assert s[..m.end] == s[..from] + s[from..m.start] + s[m.start..m.end];
    }
  }

  ghost predicate LongFrom(spans: seq<Span>, j: nat) {
    exists k :: j <= k < |spans| && Long(spans[k])
  }

  lemma LongFromStep(spans: seq<Span>, j: nat)
    requires 0 < j <= |spans|
    ensures LongFrom(spans, j - 1) <==> LongFrom(spans, j) || Long(spans[j - 1])
  {
  }

  lemma LongFromStart(spans: seq<Span>)
    ensures LongFrom(spans, 0) <==> AnyLong(spans)
  {
  }

  /** The splicing loop of one pattern. */
  method SpliceBackwards(text: string, spans: seq<Span>, mark: string) returns (masked: string, wasMasked: bool)
    requires Ordered(spans, |text|, 0)
    ensures masked == Rewrite(text, spans, mark, 0)
    ensures wasMasked <==> AnyLong(spans)
  {
    masked := text;
    wasMasked := false;
    SplicedEnds(text, spans, mark);
    var j := |spans|;
    while j > 0
      invariant 0 <= j <= |spans|
      invariant masked == Spliced(text, spans, mark, j)
      invariant wasMasked <==> LongFrom(spans, j)
    {
      SpliceOne(text, spans, mark, j);
      LongFromStep(spans, j);
      var m := spans[j - 1];
      if m.end - m.start >= SHORTEST_MASKED {
        masked := masked[..m.start] + mark + masked[m.end..];
        wasMasked := true;
      }
      j := j - 1;
    }
    LongFromStart(spans);
  }

  function LongCount(spans: seq<Span>): nat {
    if spans == [] then 0 else (if Long(spans[0]) then 1 else 0) + LongCount(spans[1..])
  }

  function LongLength(spans: seq<Span>): int {
    if spans == [] then 0 else (if Long(spans[0]) then spans[0].end - spans[0].start else 0) + LongLength(spans[1..])
  }

  lemma {:induction false} RewriteLength(s: string, spans: seq<Span>, mark: string, from: nat)
    requires Ordered(spans, |s|, from) && |mark| == 12
    ensures |Rewrite(s, spans, mark, from)| == |s| - from - LongLength(spans) + 12 * LongCount(spans)
    decreases |spans|
  {
    OrderedBound(spans, |s|, from);
    if spans != [] {
      var m := spans[0];
      RewriteLength(s, spans[1..], mark, m.end);
      OrderedBound(spans[1..], |s|, m.end);
      assert |s[from..m.start]| == m.start - from && |s[m.start..m.end]| == m.end - m.start;
    }
  }

  /** Each masked match trades its own length for the placeholder's twelve characters. */
  lemma MaskedLength(s: string, spans: seq<Span>)
    requires Ordered(spans, |s|, 0)
    ensures |Rewrite(s, spans, "***MASKED***", 0)| == |s| - LongLength(spans) + 12 * LongCount(spans)
  {
    RewriteLength(s, spans, PLACEHOLDER, 0);
  }

  // ---- where every character of a rewritten text comes from ----

  /** A position of a rewritten text: an original character or a character of the placeholder. */
  datatype Cell = Kept(index: nat) | Mark(offset: nat)

  function Originals(text: string): (cells: seq<Cell>)
    ensures |cells| == |text| && forall k :: 0 <= k < |text| ==> cells[k] == Kept(k)
  {
    seq(|text|, k requires 0 <= k < |text| => Kept(k))
  }

  function Marks(mark: string): (marks: seq<Cell>)
    ensures |marks| == |mark| && forall k :: 0 <= k < |marks| ==> marks[k] == Mark(k)
  {
    seq(|mark|, k requires 0 <= k < |mark| => Mark(k))
  }

  function Show(text: string, mark: string, cell: Cell): char {
    match cell
    case Kept(i) => if i < |text| then text[i] else '?'
    case Mark(k) => if k < |mark| then mark[k] else '?'
  }

  function Render(text: string, mark: string, cells: seq<Cell>): (r: string)
    ensures |r| == |cells| && forall k :: 0 <= k < |r| ==> r[k] == Show(text, mark, cells[k])
  {
    seq(|cells|, k requires 0 <= k < |cells| => Show(text, mark, cells[k]))
  }

  lemma RenderSlice(text: string, mark: string, cells: seq<Cell>, a: nat, b: nat)
    requires a <= b <= |cells|
    ensures Render(text, mark, cells[a..b]) == Render(text, mark, cells)[a..b]
  {
  }

  lemma RenderConcat(text: string, mark: string, a: seq<Cell>, b: seq<Cell>, c: seq<Cell>)
    ensures Render(text, mark, a + b + c) == Render(text, mark, a) + Render(text, mark, b) + Render(text, mark, c)
  {
  }

  /** Rewriting cells and then reading them is rewriting what they read as. */
  lemma {:induction false} RenderRewrite(text: string, mark: string, cells: seq<Cell>, spans: seq<Span>, from: nat)
    requires Ordered(spans, |cells|, from)
    ensures Render(text, mark, Rewrite(cells, spans, Marks(mark), from)) ==
            Rewrite(Render(text, mark, cells), spans, mark, from)
    decreases |spans|
  {
    OrderedBound(spans, |cells|, from);
    if spans == [] {
      RenderSlice(text, mark, cells, from, |cells|);
    } else {
      var m := spans[0];
      OrderedBound(spans[1..], |cells|, m.end);
      RenderRewrite(text, mark, cells, spans[1..], m.end);
      RenderSlice(text, mark, cells, from, m.start);
      RenderSlice(text, mark, cells, m.start, m.end);
      assert Render(text, mark, Marks(mark)) == mark;
      RenderConcat(text, mark, cells[from..m.start], if Long(m) then Marks(mark) else cells[m.start..m.end],
                   Rewrite(cells, spans[1..], Marks(mark), m.end));
    }
  }

  // ---- all patterns ----

  /** The matches a pattern reports in a text; a raising pattern reports none. */
  function SpansOf(p: Pattern, text: string): seq<Span> {
    match p.find(text)
    case Raised => []
    case Spans(spans) => spans
  }

  ghost predicate AllSound(patterns: seq<Pattern>) {
    forall k :: 0 <= k < |patterns| ==> Sound(patterns[k])
  }

  /** The history of a masking run: the cells before and after every pass, and the matches of every pass. */
  datatype History = History(cells: seq<seq<Cell>>, passes: seq<seq<Span>>)

  /** Pass k searched the text as it then stood and rewrote it. */
  ghost predicate Passed(h: History, patterns: seq<Pattern>, mark: string, text: string, k: int) {
    0 <= k < |patterns| && k + 1 < |h.cells| && k < |h.passes| &&
    h.passes[k] == SpansOf(patterns[k], Render(text, mark, h.cells[k])) &&
    Ordered(h.passes[k], |h.cells[k]|, 0) &&
    h.cells[k + 1] == Rewrite(h.cells[k], h.passes[k], Marks(mark), 0)
  }

  /** h is what the first n patterns do to the text. */
  ghost predicate Explains(h: History, patterns: seq<Pattern>, mark: string, text: string, n: nat) {
    n <= |patterns| && |h.cells| == n + 1 && |h.passes| == n && h.cells[0] == Originals(text) &&
    forall k :: 0 <= k < n ==> Passed(h, patterns, mark, text, k)
  }

  function Finding(p: Pattern): string {
    p.description + " (" + p.name + ") [" + p.severity + "]"
  }

  /** One finding for every pattern that matched at all, in pattern order. */
  ghost function Findings(patterns: seq<Pattern>, passes: seq<seq<Span>>): seq<string>
    requires |passes| <= |patterns|
  {
    if passes == [] then []
    else
      var last := |passes| - 1;
      Findings(patterns, passes[..last]) + (if passes[last] == [] then [] else [Finding(patterns[last])])
  }

  ghost predicate SomethingMasked(passes: seq<seq<Span>>) {
    exists k :: 0 <= k < |passes| && AnyLong(passes[k])
  }

  predicate Examined(text: string) {
    text != "" && |text| <= LONGEST_TEXT
  }

  /** The loop over the patterns; the history is the witness of what it did. */
  method MaskSensitiveContent(patterns: seq<Pattern>, mark: string, text: string)
    returns (masked: string, wasMasked: bool, findings: seq<string>, ghost h: History)
    requires AllSound(patterns)
    ensures !Examined(text) ==> masked == text && !wasMasked && findings == []
    ensures Examined(text) ==>
              Explains(h, patterns, mark, text, |patterns|) &&
              masked == Render(text, mark, h.cells[|patterns|]) &&
              (wasMasked <==> SomethingMasked(h.passes)) &&
              findings == Findings(patterns, h.passes)
  {
    h := History([Originals(text)], []);
    if text == "" || |text| > LONGEST_TEXT {
      return text, false, [], h;
    }
    masked, wasMasked, findings := text, false, [];
    assert Render(text, mark, Originals(text)) == text;
    for n := 0 to |patterns|
      invariant Explains(h, patterns, mark, text, n)
      invariant masked == Render(text, mark, h.cells[n])
      invariant wasMasked <==> SomethingMasked(h.passes)
      invariant findings == Findings(patterns, h.passes)
    {
      ghost var spans := SpansOf(patterns[n], masked);
      assert Sound(patterns[n]) && Ordered(spans, |masked|, 0);
      match patterns[n].find(masked) {
        case Raised =>
          RewriteNothing(masked, mark);
        case Spans(found) =>
          var any;
          masked, any := SpliceBackwards(masked, found, mark);
          wasMasked := wasMasked || any;
          if found != [] {
            findings := findings + [patterns[n].description + " (" + patterns[n].name + ") [" + patterns[n].severity + "]"];
          }
      }
      PassAdded(h, spans, patterns, mark, text, n);
      h := AfterPass(h, spans, mark);
    }
  }

  lemma RewriteNothing(text: string, mark: string)
    ensures Rewrite(text, [], mark, 0) == text
  {
  }

  ghost function AfterPass(h: History, spans: seq<Span>, mark: string): History
    requires h.cells != [] && Ordered(spans, |h.cells[|h.cells| - 1]|, 0)
  {
    History(h.cells + [Rewrite(h.cells[|h.cells| - 1], spans, Marks(mark), 0)], h.passes + [spans])
  }

  lemma PassAdded(h: History, spans: seq<Span>, patterns: seq<Pattern>, mark: string, text: string, n: nat)
    requires Explains(h, patterns, mark, text, n) && n < |patterns|
    requires spans == SpansOf(patterns[n], Render(text, mark, h.cells[n])) && Ordered(spans, |h.cells[n]|, 0)
    ensures var h' := AfterPass(h, spans, mark);
            Explains(h', patterns, mark, text, n + 1) &&
            Render(text, mark, h'.cells[n + 1]) == Rewrite(Render(text, mark, h.cells[n]), spans, mark, 0) &&
            (SomethingMasked(h'.passes) <==> SomethingMasked(h.passes) || AnyLong(spans)) &&
            Findings(patterns, h'.passes) ==
              Findings(patterns, h.passes) + (if spans == [] then [] else [Finding(patterns[n])])
  {
    var h' := AfterPass(h, spans, mark);
    RenderRewrite(text, mark, h.cells[n], spans, 0);
    assert h'.passes[..n] == h.passes && h'.passes[n] == spans;
    forall k | 0 <= k < n + 1 ensures Passed(h', patterns, mark, text, k) {
      assert k < n ==> Passed(h, patterns, mark, text, k);
    }
  }

  /** The matcher fixes the history: two that explain the same run are the same. */
  lemma {:induction false} OneHistory(
      h: History, g: History, patterns: seq<Pattern>, mark: string, text: string, n: nat)
    requires Explains(h, patterns, mark, text, n) && Explains(g, patterns, mark, text, n)
    ensures forall k :: 0 <= k <= n ==> h.cells[k] == g.cells[k]
    ensures h.passes == g.passes
  {
    var k := 0;
    while k < n
      invariant 0 <= k <= n
      invariant forall j :: 0 <= j <= k ==> h.cells[j] == g.cells[j]
      invariant forall j :: 0 <= j < k ==> h.passes[j] == g.passes[j]
    {
      assert Passed(h, patterns, mark, text, k) && Passed(g, patterns, mark, text, k);
      k := k + 1;
    }
  }

  // ---- what survives ----

  /** Position q lies inside a match that is masked. */
  ghost predicate Covered(spans: seq<Span>, q: int) {
    exists span :: span in spans && Long(span) && span.start <= q < span.end
  }

  ghost predicate Increasing(cells: seq<Cell>) {
    forall a, b :: 0 <= a < b < |cells| && cells[a].Kept? && cells[b].Kept? ==> cells[a].index < cells[b].index
  }

  ghost predicate NoneKept(marks: seq<Cell>) {
    forall k :: 0 <= k < |marks| ==> marks[k].Mark?
  }

  /** Kept cells of the rewrite are exactly the cells of s at uncovered positions. */
  lemma {:induction false} RewriteKeeps(cells: seq<Cell>, spans: seq<Span>, marks: seq<Cell>, from: nat, i: nat)
    requires Ordered(spans, |cells|, from) && NoneKept(marks)
    ensures Kept(i) in Rewrite(cells, spans, marks, from) <==> Uncovered(cells, spans, from, i)
    decreases |spans|
  {
    OrderedBound(spans, |cells|, from);
    if spans != [] {
      var m, rest := spans[0], spans[1..];
      RewriteKeeps(cells, rest, marks, m.end, i);
      OrderedBound(rest, |cells|, m.end);
      UncoveredSplit(cells, spans, from, i);
      var middle := if Long(m) then marks else cells[m.start..m.end];
      assert Rewrite(cells, spans, marks, from) == cells[from..m.start] + middle + Rewrite(cells, rest, marks, m.end);
    } else {
      assert Kept(i) in cells[from..] <==> exists q :: from <= q < |cells| && cells[q] == Kept(i);
    }
  }

  /** Some position from `from` on holds original character i and is not masked. */
  ghost predicate Uncovered(cells: seq<Cell>, spans: seq<Span>, from: nat, i: nat) {
    exists q :: from <= q < |cells| && cells[q] == Kept(i) && !Covered(spans, q)
  }

  lemma UncoveredSplit(cells: seq<Cell>, spans: seq<Span>, from: nat, i: nat)
    requires spans != [] && Ordered(spans, |cells|, from)
    requires from <= spans[0].start <= spans[0].end <= |cells|
    ensures var m := spans[0];
            Uncovered(cells, spans, from, i) <==>
            Kept(i) in cells[from..m.start] || (!Long(m) && Kept(i) in cells[m.start..m.end]) ||
            Uncovered(cells, spans[1..], m.end, i)
  {
    var m := spans[0];
    forall q | from <= q < |cells|
      ensures Covered(spans, q) <==> (if q < m.end then m.start <= q && Long(m) else Covered(spans[1..], q))
    {
      CoveredSplit(spans, |cells|, from, q);
    }
    assert Kept(i) in cells[from..m.start] <==> exists q :: from <= q < m.start && cells[q] == Kept(i);
    assert Kept(i) in cells[m.start..m.end] <==> exists q :: m.start <= q < m.end && cells[q] == Kept(i);
  }

  lemma {:induction false} StartsAfter(spans: seq<Span>, n: nat, from: nat)
    requires Ordered(spans, n, from)
    ensures forall span :: span in spans ==> from <= span.start <= span.end
    decreases |spans|
  {
    if spans != [] {
      StartsAfter(spans[1..], n, spans[0].end);
    }
  }

  lemma CoveredSplit(spans: seq<Span>, n: nat, from: nat, q: int)
    requires spans != [] && Ordered(spans, n, from)
    ensures Covered(spans, q) <==>
            if q < spans[0].end then spans[0].start <= q && Long(spans[0]) else Covered(spans[1..], q)
  {
    StartsAfter(spans[1..], n, spans[0].end);
    assert forall span :: span in spans <==> span == spans[0] || span in spans[1..];
  }

  lemma {:induction false} RewriteIncreasing(cells: seq<Cell>, spans: seq<Span>, marks: seq<Cell>, from: nat)
    requires Ordered(spans, |cells|, from) && Increasing(cells) && NoneKept(marks)
    ensures Increasing(Rewrite(cells, spans, marks, from))
    decreases |spans|
  {
    OrderedBound(spans, |cells|, from);
    if spans != [] {
      var m, rest := spans[0], spans[1..];
      RewriteIncreasing(cells, rest, marks, m.end);
      OrderedBound(rest, |cells|, m.end);
      var tail := Rewrite(cells, rest, marks, m.end);
      var front := cells[from..m.start] + (if Long(m) then marks else cells[m.start..m.end]);
      assert Rewrite(cells, spans, marks, from) == front + tail;
      forall k | 0 <= k < |tail| && tail[k].Kept?
        ensures exists q :: m.end <= q < |cells| && cells[q] == tail[k]
      {
        RewriteKeeps(cells, rest, marks, m.end, tail[k].index);
      }
      assert forall k :: 0 <= k < |front| && front[k].Kept? ==>
               from + k < m.end && front[k] == cells[from + k];
    }
  }

  lemma {:induction false} RewriteAddsMarksOnly(cells: seq<Cell>, spans: seq<Span>, marks: seq<Cell>, from: nat, cell: Cell)
    requires Ordered(spans, |cells|, from) && cell in Rewrite(cells, spans, marks, from)
    ensures cell in cells || cell in marks
    decreases |spans|
  {
    OrderedBound(spans, |cells|, from);
    if spans != [] && cell in Rewrite(cells, spans[1..], marks, spans[0].end) {
      RewriteAddsMarksOnly(cells, spans[1..], marks, spans[0].end, cell);
    }
  }

  /** Every cell is an original character of the text or a character of the placeholder. */
  ghost predicate KnownOrigin(text: string, mark: string, cells: seq<Cell>) {
    forall cell :: cell in cells ==> if cell.Kept? then cell.index < |text| else cell in Marks(mark)
  }

  /** Provenance over any list of patterns: the surviving original characters keep their order, and
      the result shows at every position either such a character or one of the placeholder. */
  lemma {:induction false} SurvivorsKeepOrder(
      h: History, patterns: seq<Pattern>, mark: string, text: string, n: nat, k: nat)
    requires Explains(h, patterns, mark, text, n) && k <= n
    ensures Increasing(h.cells[k]) && KnownOrigin(text, mark, h.cells[k])
    decreases k
  {
    if k > 0 {
      SurvivorsKeepOrder(h, patterns, mark, text, n, k - 1);
      assert Passed(h, patterns, mark, text, k - 1);
      RewriteIncreasing(h.cells[k - 1], h.passes[k - 1], Marks(mark), 0);
      OriginAfterPass(text, mark, h.cells[k - 1], h.passes[k - 1]);
    } else {
      FreshText(text, mark);
    }
  }

  lemma FreshText(text: string, mark: string)
    ensures Increasing(Originals(text)) && KnownOrigin(text, mark, Originals(text))
  {
  }

  lemma OriginAfterPass(text: string, mark: string, cells: seq<Cell>, spans: seq<Span>)
    requires Ordered(spans, |cells|, 0) && KnownOrigin(text, mark, cells)
    ensures KnownOrigin(text, mark, Rewrite(cells, spans, Marks(mark), 0))
  {
    forall cell | cell in Rewrite(cells, spans, Marks(mark), 0)
      ensures cell in cells || cell in Marks(mark)
    {
      RewriteAddsMarksOnly(cells, spans, Marks(mark), 0, cell);
    }
  }

  /** One pass drops exactly the original characters that lay inside a match it masked. */
  lemma SurvivesPass(h: History, patterns: seq<Pattern>, mark: string, text: string, n: nat, k: nat, i: nat)
    requires Explains(h, patterns, mark, text, n) && k < n
    ensures Kept(i) in h.cells[k + 1] <==> Uncovered(h.cells[k], h.passes[k], 0, i)
  {
    assert Passed(h, patterns, mark, text, k);
    RewriteKeeps(h.cells[k], h.passes[k], Marks(mark), 0, i);
  }

  /** A character once inside a masked match is in no later text, whatever the later patterns do. */
  lemma {:induction false} MaskedStaysMasked(
      h: History, patterns: seq<Pattern>, mark: string, text: string, n: nat, k: nat, later: nat, q: nat, i: nat)
    requires Explains(h, patterns, mark, text, n) && k < later <= n
    requires q < |h.cells[k]| && h.cells[k][q] == Kept(i) && Covered(h.passes[k], q)
    ensures Kept(i) !in h.cells[later]
    decreases later
  {
    SurvivesPass(h, patterns, mark, text, n, later - 1, i);
    if later == k + 1 {
      SurvivorsKeepOrder(h, patterns, mark, text, n, k);
      CoveredHere(h.cells[k], h.passes[k], q, i);
    } else {
      MaskedStaysMasked(h, patterns, mark, text, n, k, later - 1, q, i);
    }
  }

  lemma CoveredHere(cells: seq<Cell>, spans: seq<Span>, q: nat, i: nat)
    requires Increasing(cells) && q < |cells| && cells[q] == Kept(i) && Covered(spans, q)
    ensures !Uncovered(cells, spans, 0, i)
  {
  }

  /** Some of the first n passes masked original character i. */
  ghost predicate MaskedBefore(h: History, n: nat, i: nat) {
    exists k :: 0 <= k < n && MaskedAt(h, k, i)
  }

  ghost predicate MaskedAt(h: History, k: int, i: nat) {
    0 <= k < |h.cells| && k < |h.passes| &&
    exists q :: 0 <= q < |h.cells[k]| && h.cells[k][q] == Kept(i) && Covered(h.passes[k], q)
  }

  /** Over the whole history: an original character is left exactly when no pass masked it. */
  lemma {:induction false} LeftIffNeverMasked(
      h: History, patterns: seq<Pattern>, mark: string, text: string, n: nat, k: nat, i: nat)
    requires Explains(h, patterns, mark, text, n) && k <= n && i < |text|
    ensures Kept(i) in h.cells[k] <==> !MaskedBefore(h, k, i)
    decreases k
  {
    if k == 0 {
      assert h.cells[0][i] == Kept(i);
    } else {
      LeftIffNeverMasked(h, patterns, mark, text, n, k - 1, i);
      SurvivesPass(h, patterns, mark, text, n, k - 1, i);
      SurvivorsKeepOrder(h, patterns, mark, text, n, k - 1);
      UncoveredIffUnmasked(h.cells[k - 1], h.passes[k - 1], i);
      assert MaskedBefore(h, k, i) <==> MaskedBefore(h, k - 1, i) || MaskedAt(h, k - 1, i);
    }
  }

  lemma UncoveredIffUnmasked(cells: seq<Cell>, spans: seq<Span>, i: nat)
    requires Increasing(cells)
    ensures Uncovered(cells, spans, 0, i) <==>
            Kept(i) in cells && !(exists q :: 0 <= q < |cells| && cells[q] == Kept(i) && Covered(spans, q))
  {
  }

  // ---- the masked text by itself ----

  /** What all patterns, each searching the text the one before has left, make of a text. */
  ghost function MaskedText(patterns: seq<Pattern>, mark: string, text: string): string
    requires AllSound(patterns)
  {
    if patterns == [] then text
    else
      var last := |patterns| - 1;
      var before := MaskedText(patterns[..last], mark, text);
      assert Sound(patterns[last]);
      Rewrite(before, SpansOf(patterns[last], before), mark, 0)
  }

  lemma {:induction false} CellsShowMaskedText(
      h: History, patterns: seq<Pattern>, mark: string, text: string, n: nat, k: nat)
    requires AllSound(patterns) && Explains(h, patterns, mark, text, n) && k <= n
    ensures Render(text, mark, h.cells[k]) == MaskedText(patterns[..k], mark, text)
    decreases k
  {
    if k == 0 {
      assert Render(text, mark, Originals(text)) == text;
    } else {
      CellsShowMaskedText(h, patterns, mark, text, n, k - 1);
      assert Passed(h, patterns, mark, text, k - 1);
      assert patterns[..k][..k - 1] == patterns[..k - 1];
      RenderRewrite(text, mark, h.cells[k - 1], h.passes[k - 1], 0);
    }
  }

  // ---- when anything is masked at all ----

  lemma {:induction false} RewriteWithoutLong<T>(s: seq<T>, spans: seq<Span>, mark: seq<T>, from: nat)
    requires Ordered(spans, |s|, from) && !AnyLong(spans)
    ensures Rewrite(s, spans, mark, from) == s[from..]
    decreases |spans|
  {
    OrderedBound(spans, |s|, from);
    if spans != [] {
      var m := spans[0];
      OrderedBound(spans[1..], |s|, m.end);
      assert !Long(m) && forall span :: span in spans[1..] ==> span in spans;
      RewriteWithoutLong(s, spans[1..], mark, m.end);
      assert s[from..m.start] + s[m.start..m.end] + s[m.end..] == s[from..];
    }
  }

  /** Until something is masked every pattern still searches the original text. */
  lemma {:induction false} UnmaskedSoFar(h: History, patterns: seq<Pattern>, mark: string, text: string, n: nat, k: nat)
    requires Explains(h, patterns, mark, text, n) && k <= n
    requires forall j :: 0 <= j < k ==> !AnyLong(h.passes[j])
    ensures h.cells[k] == Originals(text)
    ensures k < n ==> h.passes[k] == SpansOf(patterns[k], text)
    decreases k
  {
    if k > 0 {
      UnmaskedSoFar(h, patterns, mark, text, n, k - 1);
      assert Passed(h, patterns, mark, text, k - 1);
      RewriteWithoutLong(h.cells[k - 1], h.passes[k - 1], Marks(mark), 0);
    }
    assert Render(text, mark, Originals(text)) == text;
    assert k < n ==> Passed(h, patterns, mark, text, k);
  }

  ghost predicate LongHit(patterns: seq<Pattern>, text: string, n: nat)
    requires n <= |patterns|
  {
    exists k :: 0 <= k < n && AnyLong(SpansOf(patterns[k], text))
  }

  /** Something gets masked iff some pattern has a long match in the original text, however the
      patterns rewrite each other's input. */
  lemma MaskedIffLongHit(h: History, patterns: seq<Pattern>, mark: string, text: string, n: nat)
    requires Explains(h, patterns, mark, text, n)
    ensures SomethingMasked(h.passes) <==> LongHit(patterns, text, n)
  {
    var k := 0;
    while k < n && !AnyLong(h.passes[k])
      invariant 0 <= k <= n
      invariant forall j :: 0 <= j < k ==> !AnyLong(h.passes[j]) && !AnyLong(SpansOf(patterns[j], text))
    {
      UnmaskedSoFar(h, patterns, mark, text, n, k);
      k := k + 1;
    }
    UnmaskedSoFar(h, patterns, mark, text, n, k);
  }

  // ---- whether all long matches of the given text are gone ----

  /** Original character i lies in a long match that some pattern has in the text as given. */
  ghost predicate InLongMatch(patterns: seq<Pattern>, text: string, i: nat) {
    exists k :: 0 <= k < |patterns| && Covered(SpansOf(patterns[k], text), i)
  }

  /** The first pattern with a long match in the given text has all of these masked for good. */
  lemma FirstLongHitIsMasked(
      h: History, patterns: seq<Pattern>, mark: string, text: string, n: nat, k: nat, i: nat)
    requires Explains(h, patterns, mark, text, n) && k < n && i < |text|
    requires forall j :: 0 <= j < k ==> !AnyLong(SpansOf(patterns[j], text))
    requires Covered(SpansOf(patterns[k], text), i)
    ensures Kept(i) !in h.cells[n]
  {
    var j := 0;
    while j < k
      invariant j <= k && forall m :: 0 <= m < j ==> !AnyLong(h.passes[m])
    {
      UnmaskedSoFar(h, patterns, mark, text, n, j);
      j := j + 1;
    }
    UnmaskedSoFar(h, patterns, mark, text, n, k);
    MaskedStaysMasked(h, patterns, mark, text, n, k, n, i, i);
  }

  /** f is the first pattern with a long match in the given text. */
  ghost predicate FirstLong(patterns: seq<Pattern>, text: string, f: int) {
    0 <= f < |patterns| && AnyLong(SpansOf(patterns[f], text)) &&
    forall j :: 0 <= j < f ==> !AnyLong(SpansOf(patterns[j], text))
  }

  lemma FirstLongExists(patterns: seq<Pattern>, text: string, k: nat) returns (f: nat)
    requires k < |patterns| && AnyLong(SpansOf(patterns[k], text))
    ensures f <= k && FirstLong(patterns, text, f)
  {
    f := 0;
    while !AnyLong(SpansOf(patterns[f], text))
      invariant f <= k && forall j :: 0 <= j < f ==> !AnyLong(SpansOf(patterns[j], text))
      decreases k - f
    {
      f := f + 1;
    }
  }

  /** Every long match of the given text lies within the long matches of pattern f. */
  ghost predicate FirstHasAll(patterns: seq<Pattern>, text: string, f: nat)
    requires f < |patterns|
  {
    forall i :: 0 <= i < |text| && InLongMatch(patterns, text, i) ==> Covered(SpansOf(patterns[f], text), i)
  }

  /** No original character of a long match is left. */
  ghost predicate NothingLeft(h: History, patterns: seq<Pattern>, text: string)
    requires |h.cells| > |patterns|
  {
    forall i :: 0 <= i < |text| && InLongMatch(patterns, text, i) ==> Kept(i) !in h.cells[|patterns|]
  }

  /** If the first pattern with a long match has all of them, nothing is left. */
  lemma FirstHidesAll(h: History, patterns: seq<Pattern>, mark: string, text: string, f: nat)
    requires Explains(h, patterns, mark, text, |patterns|)
    requires FirstLong(patterns, text, f) && FirstHasAll(patterns, text, f)
    ensures NothingLeft(h, patterns, text)
  {
    forall i | 0 <= i < |text| && InLongMatch(patterns, text, i) ensures Kept(i) !in h.cells[|patterns|] {
      FirstLongHitIsMasked(h, patterns, mark, text, |patterns|, f, i);
    }
  }

  /** If one pattern only has long matches in the given text, nothing of them is left. */
  lemma LonePatternHidesAll(h: History, patterns: seq<Pattern>, mark: string, text: string)
    requires Explains(h, patterns, mark, text, |patterns|)
    requires forall j, k :: 0 <= j < k < |patterns| ==>
               !AnyLong(SpansOf(patterns[j], text)) || !AnyLong(SpansOf(patterns[k], text))
    ensures NothingLeft(h, patterns, text)
  {
    forall i | 0 <= i < |text| && InLongMatch(patterns, text, i) ensures Kept(i) !in h.cells[|patterns|] {
      var k :| 0 <= k < |patterns| && Covered(SpansOf(patterns[k], text), i);
      var f := FirstLongExists(patterns, text, k);
      LoneHasAll(patterns, text, f);
      FirstHidesAll(h, patterns, mark, text, f);
    }
  }

  lemma LoneHasAll(patterns: seq<Pattern>, text: string, f: nat)
    requires FirstLong(patterns, text, f)
    requires forall k :: f < k < |patterns| ==>
               !AnyLong(SpansOf(patterns[f], text)) || !AnyLong(SpansOf(patterns[k], text))
    ensures FirstHasAll(patterns, text, f)
  {
    forall i, k | 0 <= k < |patterns| && Covered(SpansOf(patterns[k], text), i) ensures k == f {
      assert AnyLong(SpansOf(patterns[k], text));
    }
  }

  // ---- the exact condition on the matches in the given text ----

  /** Other sound patterns with the same matches in the given text. */
  ghost predicate SameMatches(patterns: seq<Pattern>, others: seq<Pattern>, text: string) {
    |others| == |patterns| && AllSound(others) &&
    forall k :: 0 <= k < |patterns| ==> SpansOf(others[k], text) == SpansOf(patterns[k], text)
  }

  /** The pattern's pass over the given text changes it: some long match does not already read as the mark. */
  predicate Changes(p: Pattern, mark: string, text: string) {
    Ordered(SpansOf(p, text), |text|, 0) && Rewrite(text, SpansOf(p, text), mark, 0) != text
  }

  /** Whatever the patterns find in any other text, nothing is left. */
  ghost predicate SurelyHidden(patterns: seq<Pattern>, mark: string, text: string) {
    forall others, h :: SameMatches(patterns, others, text) && Explains(h, others, mark, text, |patterns|) ==>
      NothingLeft(h, others, text)
  }

  /** The pattern with its matches in the given text and none in any other. */
  function OnlyHere(p: Pattern, text: string): Pattern {
    p.(find := t => if t == text then p.find(t) else Spans([]))
  }

  function AllOnlyHere(patterns: seq<Pattern>, text: string): (others: seq<Pattern>)
    ensures |others| == |patterns| && forall k :: 0 <= k < |others| ==> others[k] == OnlyHere(patterns[k], text)
  {
    seq(|patterns|, k requires 0 <= k < |patterns| => OnlyHere(patterns[k], text))
  }

  lemma OnlyHereIsSound(p: Pattern, text: string)
    requires Sound(p)
    ensures Sound(OnlyHere(p, text)) && SpansOf(OnlyHere(p, text), text) == SpansOf(p, text)
    ensures forall t :: t != text ==> SpansOf(OnlyHere(p, text), t) == []
  {
    var q := OnlyHere(p, text);
    forall t | q.find(t).Spans? ensures Ordered(q.find(t).spans, |t|, 0) {
      assert t == text ==> q.find(t) == p.find(t);
    }
  }

  lemma AllOnlyHereMatch(patterns: seq<Pattern>, text: string)
    requires AllSound(patterns)
    ensures SameMatches(patterns, AllOnlyHere(patterns, text), text)
  {
    forall k | 0 <= k < |patterns|
      ensures Sound(AllOnlyHere(patterns, text)[k]) &&
              SpansOf(AllOnlyHere(patterns, text)[k], text) == SpansOf(patterns[k], text)
    {
      OnlyHereIsSound(patterns[k], text);
    }
  }

  /** The history of such patterns: only the pass of f changes anything. */
  ghost function OneChange(text: string, spans: seq<Span>, mark: string, k: int, f: int): seq<Cell>
    requires Ordered(spans, |text|, 0)
  {
    if k <= f then Originals(text) else Rewrite(Originals(text), spans, Marks(mark), 0)
  }

  ghost function OneChangeHistory(patterns: seq<Pattern>, mark: string, text: string, f: nat): History
    requires AllSound(patterns) && f < |patterns|
  {
    assert Sound(patterns[f]);
    History(seq(|patterns| + 1, k => OneChange(text, SpansOf(patterns[f], text), mark, k, f)),
            seq(|patterns|, k requires 0 <= k < |patterns| => if k <= f then SpansOf(patterns[k], text) else []))
  }

  lemma PassBeforeChange(p: Pattern, mark: string, text: string)
    requires Sound(p) && !AnyLong(SpansOf(p, text))
    ensures Ordered(SpansOf(p, text), |text|, 0)
    ensures Rewrite(Originals(text), SpansOf(p, text), Marks(mark), 0) == Originals(text)
  {
    RewriteWithoutLong(Originals(text), SpansOf(p, text), Marks(mark), 0);
  }

  lemma PassAfterChange(p: Pattern, spans: seq<Span>, mark: string, text: string)
    requires Sound(p) && Ordered(spans, |text|, 0) && Rewrite(text, spans, mark, 0) != text
    ensures SpansOf(OnlyHere(p, text), Render(text, mark, Rewrite(Originals(text), spans, Marks(mark), 0))) == []
  {
    assert Render(text, mark, Originals(text)) == text;
    RenderRewrite(text, mark, Originals(text), spans, 0);
    OnlyHereIsSound(p, text);
  }

  /** h has, around pass k, what OneChangeHistory puts there. */
  ghost predicate OneChangeAt(h: History, patterns: seq<Pattern>, mark: string, text: string, f: nat, k: nat)
    requires f < |patterns| && Ordered(SpansOf(patterns[f], text), |text|, 0)
  {
    var spans := SpansOf(patterns[f], text);
    k < |patterns| && |h.cells| == |patterns| + 1 && |h.passes| == |patterns| &&
    h.cells[k] == OneChange(text, spans, mark, k, f) && h.cells[k + 1] == OneChange(text, spans, mark, k + 1, f) &&
    h.passes[k] == if k <= f then SpansOf(patterns[k], text) else []
  }

  lemma OneChangeParts(patterns: seq<Pattern>, mark: string, text: string, f: nat, k: nat)
    requires AllSound(patterns) && f < |patterns| && k < |patterns|
    requires Ordered(SpansOf(patterns[f], text), |text|, 0)
    ensures OneChangeAt(OneChangeHistory(patterns, mark, text, f), patterns, mark, text, f, k)
  {
  }

  lemma RenderOriginals(text: string, mark: string)
    ensures Render(text, mark, Originals(text)) == text
  {
  }

  lemma PassedOnText(h: History, patterns: seq<Pattern>, mark: string, text: string, k: nat)
    requires k < |patterns| && k + 1 < |h.cells| && k < |h.passes| && h.cells[k] == Originals(text)
    requires h.passes[k] == SpansOf(patterns[k], text) && Ordered(h.passes[k], |text|, 0)
    requires h.cells[k + 1] == Rewrite(Originals(text), h.passes[k], Marks(mark), 0)
    ensures Passed(h, patterns, mark, text, k)
  {
    RenderOriginals(text, mark);
  }

  /** A pattern without long match passes over the given text. */
  lemma PassWithoutChange(h: History, patterns: seq<Pattern>, mark: string, text: string, k: nat)
    requires k < |patterns| && k + 1 < |h.cells| && k < |h.passes|
    requires h.cells[k] == Originals(text) && h.cells[k + 1] == Originals(text)
    requires Sound(patterns[k]) && h.passes[k] == SpansOf(patterns[k], text) && !AnyLong(h.passes[k])
    ensures Passed(h, patterns, mark, text, k)
  {
    PassBeforeChange(patterns[k], mark, text);
    PassedOnText(h, patterns, mark, text, k);
  }

  lemma PassOfChange(h: History, patterns: seq<Pattern>, mark: string, text: string, f: nat, k: nat)
    requires AllSound(patterns) && FirstLong(patterns, text, f) && k < |patterns|
    requires Ordered(SpansOf(patterns[f], text), |text|, 0) && OneChangeAt(h, patterns, mark, text, f, k)
    requires Rewrite(text, SpansOf(patterns[f], text), mark, 0) != text
    ensures Passed(h, AllOnlyHere(patterns, text), mark, text, k)
  {
    var others := AllOnlyHere(patterns, text);
    OnlyHereIsSound(patterns[k], text);
    if k < f {
      PassWithoutChange(h, others, mark, text, k);
    } else if k == f {
      PassedOnText(h, others, mark, text, k);
    } else {
      LatePassOfChange(h, patterns, others, mark, text, f, k);
    }
  }

  /** After f they search another text and find nothing. */
  lemma LatePassOfChange(
      h: History, patterns: seq<Pattern>, others: seq<Pattern>, mark: string, text: string, f: nat, k: nat)
    requires AllSound(patterns) && f < k < |patterns| == |others|
    requires Ordered(SpansOf(patterns[f], text), |text|, 0) && OneChangeAt(h, patterns, mark, text, f, k)
    requires Rewrite(text, SpansOf(patterns[f], text), mark, 0) != text
    requires others[k] == OnlyHere(patterns[k], text)
    ensures Passed(h, others, mark, text, k)
  {
    assert Sound(patterns[k]);
    PassAfterChange(patterns[k], SpansOf(patterns[f], text), mark, text);
    RewriteNone(h.cells[k], Marks(mark));
  }

  lemma RewriteNone<T>(s: seq<T>, mark: seq<T>)
    ensures Ordered([], |s|, 0) && Rewrite(s, [], mark, 0) == s
  {
  }

  /** A character outside the matches of the first pattern may be left. */
  lemma MayBeLeft(patterns: seq<Pattern>, mark: string, text: string, f: nat, i: nat)
    requires AllSound(patterns) && FirstLong(patterns, text, f) && i < |text|
    requires Ordered(SpansOf(patterns[f], text), |text|, 0)
    requires Rewrite(text, SpansOf(patterns[f], text), mark, 0) != text
    requires !Covered(SpansOf(patterns[f], text), i)
    ensures var h := OneChangeHistory(patterns, mark, text, f);
            Explains(h, AllOnlyHere(patterns, text), mark, text, |patterns|) && Kept(i) in h.cells[|patterns|]
  {
    var spans := SpansOf(patterns[f], text);
    forall k | 0 <= k < |patterns|
      ensures Passed(OneChangeHistory(patterns, mark, text, f), AllOnlyHere(patterns, text), mark, text, k)
    {
      OneChangeParts(patterns, mark, text, f, k);
      PassOfChange(OneChangeHistory(patterns, mark, text, f), patterns, mark, text, f, k);
    }
    RewriteKeeps(Originals(text), spans, Marks(mark), 0, i);
    assert Originals(text)[i] == Kept(i);
  }

  /** The exact condition, on nothing but the matches in the given text: where the first pattern with a long
      match changes the text, all long matches are gone, whatever the patterns find afterwards, if and only if
      every long match lies within long matches of that first pattern. */
  lemma HiddenIffFirstHasAll(patterns: seq<Pattern>, mark: string, text: string, f: nat)
    requires AllSound(patterns) && FirstLong(patterns, text, f)
    requires Changes(patterns[f], mark, text)
    ensures SurelyHidden(patterns, mark, text) <==> FirstHasAll(patterns, text, f)
  {
    if FirstHasAll(patterns, text, f) {
      forall others, h | SameMatches(patterns, others, text) && Explains(h, others, mark, text, |patterns|)
        ensures NothingLeft(h, others, text)
      {
        SameMatchesSameFirst(patterns, others, text, f);
        FirstHidesAll(h, others, mark, text, f);
      }
    } else {
      var i :| 0 <= i < |text| && InLongMatch(patterns, text, i) && !Covered(SpansOf(patterns[f], text), i);
      var others, h := AllOnlyHere(patterns, text), OneChangeHistory(patterns, mark, text, f);
      AllOnlyHereMatch(patterns, text);
      MayBeLeft(patterns, mark, text, f, i);
      SameLongMatches(patterns, others, text, i);
      assert !NothingLeft(h, others, text);
    }
  }

  lemma SameLongMatches(patterns: seq<Pattern>, others: seq<Pattern>, text: string, i: nat)
    requires SameMatches(patterns, others, text)
    ensures InLongMatch(others, text, i) <==> InLongMatch(patterns, text, i)
  {
    forall k | 0 <= k < |patterns| ensures Covered(SpansOf(others[k], text), i) == Covered(SpansOf(patterns[k], text), i) {
    }
  }

  lemma SameMatchesSameFirst(patterns: seq<Pattern>, others: seq<Pattern>, text: string, f: nat)
    requires SameMatches(patterns, others, text) && FirstLong(patterns, text, f) && FirstHasAll(patterns, text, f)
    ensures FirstLong(others, text, f) && FirstHasAll(others, text, f)
  {
    forall i | 0 <= i < |text| ensures InLongMatch(others, text, i) <==> InLongMatch(patterns, text, i) {
      SameLongMatches(patterns, others, text, i);
    }
  }

  /** A pattern that finds one match in the given text and nothing in any other. */
  function OnlyIn(text: string, name: string, span: Span): Pattern {
    Pattern(name, name, "high", t => if t == text then Spans([span]) else Spans([]))
  }

  function Inner(text: string, inner: Span): seq<Pattern> {
    [OnlyIn(text, "aws_key", inner), OnlyIn(text, "api_key", Span(0, |text|))]
  }

  /** The cells once the inner match is masked. */
  function RestCells(text: string, inner: Span): (cells: seq<Cell>)
    requires inner.start <= inner.end <= |text|
    ensures |cells| == |text| - (inner.end - inner.start) + |PLACEHOLDER|
  {
    Originals(text)[0..inner.start] + Marks(PLACEHOLDER) + Originals(text)[inner.end..]
  }

  lemma RestIsLeft(text: string, inner: Span, i: nat)
    requires inner.start <= inner.end <= |text| && i < |text| && !(inner.start <= i < inner.end)
    ensures Kept(i) in RestCells(text, inner)
  {
    var cells, rest := Originals(text), RestCells(text, inner);
    assert cells[i] == Kept(i);
    if i < inner.start {
      assert rest[i] == cells[0..inner.start][i];
    } else {
      assert rest[inner.start + |PLACEHOLDER| + i - inner.end] == cells[inner.end..][i - inner.end];
    }
  }

  lemma OverlapPasses(text: string, inner: Span, h: History)
    requires inner.start <= inner.end <= |text| && Long(inner) && inner.end - inner.start != |PLACEHOLDER|
    requires h == History([Originals(text), RestCells(text, inner), RestCells(text, inner)], [[inner], []])
    ensures Explains(h, Inner(text, inner), PLACEHOLDER, text, 2)
  {
    OneMatchRewritten(Originals(text), inner, Marks(PLACEHOLDER));
    assert Render(text, PLACEHOLDER, Originals(text)) == text;
    assert |Render(text, PLACEHOLDER, RestCells(text, inner))| != |text|;
    assert Passed(h, Inner(text, inner), PLACEHOLDER, text, 0);
    assert Passed(h, Inner(text, inner), PLACEHOLDER, text, 1);
  }

  lemma AllIsSensitive(text: string, inner: Span, i: nat)
    requires inner.start <= inner.end <= |text| && Long(inner) && i < |text|
    ensures InLongMatch(Inner(text, inner), text, i)
  {
    var spans := SpansOf(Inner(text, inner)[1], text);
    assert spans == [Span(0, |text|)] && spans[0] in spans && Long(spans[0]);
    assert Covered(spans, i);
  }

  /** With two it may be otherwise. In `api_key=AKIAABCDEFGHIJKLMNOPsecrettail123` the access key is masked
      first; the longer match around it is then no longer found, and the rest of the secret is shown. So it is
      with every match inside another, unless the mark happens to be as long. */
  lemma OverlapLeavesARest(text: string, inner: Span) returns (h: History)
    requires inner.start <= inner.end <= |text| && Long(inner) && inner.end - inner.start != |PLACEHOLDER|
    ensures AllSound(Inner(text, inner)) && Explains(h, Inner(text, inner), PLACEHOLDER, text, 2)
    ensures forall i :: 0 <= i < |text| && !(inner.start <= i < inner.end) ==>
              InLongMatch(Inner(text, inner), text, i) && Kept(i) in h.cells[2]
  {
    OneMatchIsSound(text, "aws_key", inner);
    OneMatchIsSound(text, "api_key", Span(0, |text|));
    h := History([Originals(text), RestCells(text, inner), RestCells(text, inner)], [[inner], []]);
    OverlapPasses(text, inner, h);
    forall i | 0 <= i < |text| && !(inner.start <= i < inner.end)
      ensures InLongMatch(Inner(text, inner), text, i) && Kept(i) in h.cells[2]
    {
      RestIsLeft(text, inner, i);
      AllIsSensitive(text, inner, i);
    }
  }

  lemma OneMatchIsSound(text: string, name: string, span: Span)
    requires span.start <= span.end <= |text|
    ensures Sound(OnlyIn(text, name, span))
  {
    assert [span][1..] == [];
  }

  lemma OneMatchRewritten<T>(s: seq<T>, span: Span, mark: seq<T>)
    requires span.start <= span.end <= |s| && Long(span)
    ensures Ordered([span], |s|, 0)
    ensures Rewrite(s, [span], mark, 0) == s[0..span.start] + mark + s[span.end..]
  {
    assert [span][1..] == [];
  }
}
