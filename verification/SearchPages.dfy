/** Search orchestration: fan-out over providers, one optional re-index, and the
    sort, filter and page stage. Scores are real numbers. */
module SearchPages {
  import opened Sequences
  import opened Wrappers

  datatype Item = Item(
    title: string, score: real, sourceType: Option<string>, kind: Option<string>, language: Option<string>)

  // ---- stable descending order ----

  /** Where a new first element goes: before the first element that does not score higher. */
  function Insert(x: Item, xs: seq<Item>): seq<Item> {
    if xs == [] || xs[0].score <= x.score then [x] + xs else [xs[0]] + Insert(x, xs[1..])
  }

  /** `sort(key=score, reverse=True)`, which keeps the order of equal scores. */
  function SortDesc(xs: seq<Item>): seq<Item> {
    if xs == [] then [] else Insert(xs[0], SortDesc(xs[1..]))
  }

  ghost predicate Descending(xs: seq<Item>) {
    forall i, j :: 0 <= i < j < |xs| ==> xs[i].score >= xs[j].score
  }

  /** The elements of one score, in order. */
  function WithScore(xs: seq<Item>, v: real): seq<Item> {
    if xs == [] then []
    else if xs[0].score == v then [xs[0]] + WithScore(xs[1..], v)
    else WithScore(xs[1..], v)
  }

  lemma DescendingHead(xs: seq<Item>)
    requires Descending(xs) && xs != []
    ensures Descending(xs[1..]) && forall y :: y in xs[1..] ==> xs[0].score >= y.score
  {
  }

  lemma DescendingCons(x: Item, xs: seq<Item>)
    requires Descending(xs) && forall y :: y in xs ==> x.score >= y.score
    ensures Descending([x] + xs)
  {
  }

  lemma ConsParts(x: Item, xs: seq<Item>)
    ensures ([x] + xs)[0] == x && ([x] + xs)[1..] == xs
  {
  }

  lemma {:induction false} InsertSorts(x: Item, xs: seq<Item>)
    requires Descending(xs)
    ensures Descending(Insert(x, xs))
    ensures forall y :: y in Insert(x, xs) <==> y == x || y in xs
  {
    if xs == [] || xs[0].score <= x.score {
      if xs != [] {
        DescendingHead(xs);
      }
      DescendingCons(x, xs);
    } else {
      DescendingHead(xs);
      InsertSorts(x, xs[1..]);
      DescendingCons(xs[0], Insert(x, xs[1..]));
    }
  }

  lemma {:induction false} InsertScores(x: Item, xs: seq<Item>, v: real)
    ensures WithScore(Insert(x, xs), v) == (if x.score == v then [x] else []) + WithScore(xs, v)
  {
    if xs == [] || xs[0].score <= x.score {
      ConsParts(x, xs);
    } else {
      InsertScores(x, xs[1..], v);
      ConsParts(xs[0], Insert(x, xs[1..]));
    }
  }

  /** The result is in descending order and holds, score by score, the given elements in the given order. */
  lemma {:induction false} SortDescSorts(xs: seq<Item>, v: real)
    ensures Descending(SortDesc(xs))
    ensures WithScore(SortDesc(xs), v) == WithScore(xs, v)
  {
    if xs != [] {
      SortDescSorts(xs[1..], v);
      InsertSorts(xs[0], SortDesc(xs[1..]));
      InsertScores(xs[0], SortDesc(xs[1..]), v);
    }
  }

  lemma {:induction false} ScoreIsPresent(xs: seq<Item>, x: Item)
    ensures x in WithScore(xs, x.score) <==> x in xs
    ensures forall y :: y in WithScore(xs, x.score) ==> y in xs && y.score == x.score
  {
    if xs != [] {
      ScoreIsPresent(xs[1..], x);
    }
  }

  lemma DifferSomewhere(xs: seq<Item>, ys: seq<Item>)
    requires xs == [] && ys != []
    ensures exists v :: WithScore(xs, v) != WithScore(ys, v)
  {
    assert WithScore(ys, ys[0].score) != [];
  }

  /** A descending list is fixed by its elements of each score: stable sorting has one answer. */
  lemma {:induction false} OneStableOrder(xs: seq<Item>, ys: seq<Item>)
    requires Descending(xs) && Descending(ys)
    requires forall v :: WithScore(xs, v) == WithScore(ys, v)
    ensures xs == ys
  {
    if xs == [] {
      if ys != [] {
        DifferSomewhere(xs, ys);
      }
    } else {
      ScoreIsPresent(xs, xs[0]);
      ScoreIsPresent(ys, xs[0]);
      assert xs[0] in ys && ys != [];
      ScoreIsPresent(ys, ys[0]);
      ScoreIsPresent(xs, ys[0]);
      assert ys[0] in xs && xs[0].score == ys[0].score;
      var v0 := xs[0].score;
      assert WithScore(xs, v0)[0] == xs[0] && WithScore(ys, v0)[0] == ys[0];
      forall v ensures WithScore(xs[1..], v) == WithScore(ys[1..], v) {
        assert WithScore(xs, v) == WithScore(ys, v);
        if v == v0 {
          ConsParts(xs[0], WithScore(xs[1..], v));
          ConsParts(ys[0], WithScore(ys[1..], v));
        }
      }
      OneStableOrder(xs[1..], ys[1..]);
      assert xs == [xs[0]] + xs[1..] && ys == [ys[0]] + ys[1..];
    }
  }

  // ---- result filter ----

  datatype Filter = Filter(
    sourceTypes: Option<set<string>>, kinds: Option<set<string>>, language: Option<string>, minScore: Option<real>)

  predicate Passes(r: Item, f: Filter) {
    (f.sourceTypes.Some? ==> r.sourceType.Some? && r.sourceType.value in f.sourceTypes.value) &&
    (f.kinds.Some? ==> r.kind.Some? && r.kind.value in f.kinds.value) &&
    (f.language.Some? ==> r.language == f.language) &&
    (f.minScore.Some? ==> r.score >= f.minScore.value)
  }

  function Filtered(xs: seq<Item>, filt: Option<Filter>): seq<Item> {
    if filt.None? then xs
    else if xs == [] then []
    else if Passes(xs[0], filt.value) then [xs[0]] + Filtered(xs[1..], filt)
    else Filtered(xs[1..], filt)
  }

  lemma FilterStep(out: seq<Item>, results: seq<Item>, i: nat, f: Filter)
    requires i < |results|
    ensures out + Filtered(results[i..], Some(f)) ==
            (if Passes(results[i], f) then out + [results[i]] else out) + Filtered(results[i + 1..], Some(f))
  {
    assert results[i..][1..] == results[i + 1..];
  }

  method ApplyResultFilter(results: seq<Item>, filt: Option<Filter>) returns (out: seq<Item>)
    ensures out == Filtered(results, filt)
  {
    if filt.None? {
      return results;
    }
    out := [];
    var f := filt.value;
    assert results[0..] == results;
    for i := 0 to |results|
      invariant out + Filtered(results[i..], Some(f)) == Filtered(results, filt)
    {
      var r := results[i];
      FilterStep(out, results, i, f);
      if f.sourceTypes.Some? && (r.sourceType.None? || r.sourceType.value !in f.sourceTypes.value) {
        continue;
      }
      if f.kinds.Some? && (r.kind.None? || r.kind.value !in f.kinds.value) {
        continue;
      }
      if f.language.Some? && r.language != f.language {
        continue;
      }
      if f.minScore.Some? && r.score < f.minScore.value {
        continue;
      }
      out := out + [r];
    }
    assert out + Filtered(results[|results|..], Some(f)) == out;
  }

  lemma {:induction false} FilteredIsDescending(xs: seq<Item>, filt: Option<Filter>)
    requires Descending(xs)
    ensures Descending(Filtered(xs, filt)) && forall y :: y in Filtered(xs, filt) ==> y in xs
  {
    if filt.Some? && xs != [] {
      DescendingHead(xs);
      FilteredIsDescending(xs[1..], filt);
      DescendingCons(xs[0], Filtered(xs[1..], filt));
    }
  }

  lemma {:induction false} FilteredScores(xs: seq<Item>, filt: Option<Filter>, v: real)
    ensures WithScore(Filtered(xs, filt), v) == Filtered(WithScore(xs, v), filt)
  {
    if filt.Some? && xs != [] {
      FilteredScores(xs[1..], filt, v);
      ConsParts(xs[0], Filtered(xs[1..], filt));
      ConsParts(xs[0], WithScore(xs[1..], v));
    }
  }

  /** Filtering after the sort, as the code does, or before it comes to the same. */
  lemma FilterCommutesWithSort(xs: seq<Item>, filt: Option<Filter>)
    ensures Filtered(SortDesc(xs), filt) == SortDesc(Filtered(xs, filt))
  {
    forall v ensures WithScore(Filtered(SortDesc(xs), filt), v) == WithScore(SortDesc(Filtered(xs, filt)), v) {
      FilteredScores(SortDesc(xs), filt, v);
      FilteredScores(xs, filt, v);
      SortDescSorts(xs, v);
      SortDescSorts(Filtered(xs, filt), v);
    }
    SortDescSorts(xs, 0.0);
    FilteredIsDescending(SortDesc(xs), filt);
    SortDescSorts(Filtered(xs, filt), 0.0);
    OneStableOrder(Filtered(SortDesc(xs), filt), SortDesc(Filtered(xs, filt)));
  }

  // ---- pages ----

  /** Python's slice bound: negative counts from the end, and everything is clipped to the list. */
  function Bound(i: int, n: nat): (r: nat)
    ensures r <= n
  {
    if i < 0 then (if i + n < 0 then 0 else i + n) else if i > n then n else i
  }

  function Slice<T>(xs: seq<T>, from: int, to: int): seq<T> {
    var lo, hi := Bound(from, |xs|), Bound(to, |xs|);
    if lo < hi then xs[lo..hi] else []
  }

  datatype Page = Page(items: seq<Item>, total: nat, hasMore: bool, nextOffset: Option<int>)

  function PageOf(xs: seq<Item>, offset: int, limit: int): Page {
    var more := offset + limit < |xs|;
    Page(Slice(xs, offset, offset + limit), |xs|, more, if more then Some(offset + limit) else None)
  }

  /** The pages a caller sees who follows nextOffset. */
  function Pages(xs: seq<Item>, limit: int, offset: nat): seq<seq<Item>>
    requires limit >= 1
    decreases |xs| - offset
  {
    var p := PageOf(xs, offset, limit);
    [p.items] + (if p.nextOffset.Some? then Pages(xs, limit, p.nextOffset.value) else [])
  }

  function Joined(pages: seq<seq<Item>>): seq<Item> {
    if pages == [] then [] else pages[0] + Joined(pages[1..])
  }

  /** c pages hold n items: at least one page, and otherwise just enough, n over the limit rounded up. */
  ghost predicate JustEnough(c: int, n: nat, limit: int) {
    if n == 0 then c == 1 else (c - 1) * limit < n <= c * limit
  }

  lemma JustEnoughAndOne(c: int, n: nat, limit: int)
    requires limit >= 1 && n > 0 && JustEnough(c, n, limit)
    ensures JustEnough(c + 1, n + limit, limit)
  {
    Times(c, limit);
  }

  /** The pages hold the items from offset on, are just enough, and all but the last are full. */
  ghost predicate PagesHold(pages: seq<seq<Item>>, xs: seq<Item>, limit: int, offset: nat)
    requires offset <= |xs|
  {
    Joined(pages) == xs[offset..] && JustEnough(|pages|, |xs| - offset, limit) &&
    forall k :: 0 <= k < |pages| - 1 ==> |pages[k]| == limit
  }

  lemma OneMorePageHolds(rest: seq<seq<Item>>, xs: seq<Item>, limit: int, offset: nat)
    requires limit >= 1 && offset + limit < |xs| && PagesHold(rest, xs, limit, offset + limit)
    ensures PagesHold([xs[offset..offset + limit]] + rest, xs, limit, offset)
  {
    OneMorePage(xs[offset..offset + limit], rest, limit);
    assert xs[offset..] == xs[offset..offset + limit] + xs[offset + limit..];
    JustEnoughAndOne(|rest|, |xs| - offset - limit, limit);
  }

  lemma {:induction false} PagesFrom(xs: seq<Item>, limit: int, offset: nat)
    requires limit >= 1 && offset <= |xs|
    ensures PagesHold(Pages(xs, limit, offset), xs, limit, offset)
    decreases |xs| - offset
  {
    if offset + limit < |xs| {
      PagesFrom(xs, limit, offset + limit);
      PageInside(xs, limit, offset);
      OneMorePageHolds(Pages(xs, limit, offset + limit), xs, limit, offset);
    } else {
      PageAtEnd(xs, limit, offset);
    }
  }

  lemma PageInside(xs: seq<Item>, limit: int, offset: nat)
    requires limit >= 1 && offset + limit < |xs|
    ensures Pages(xs, limit, offset) == [xs[offset..offset + limit]] + Pages(xs, limit, offset + limit)
  {
  }

  lemma PageAtEnd(xs: seq<Item>, limit: int, offset: nat)
    requires limit >= 1 && offset <= |xs| <= offset + limit
    ensures Pages(xs, limit, offset) == [xs[offset..]]
    ensures Joined([xs[offset..]]) == xs[offset..]
  {
    assert [xs[offset..]][1..] == [];
    assert xs[offset..|xs|] == xs[offset..];
  }

  lemma OneMorePage(page: seq<Item>, rest: seq<seq<Item>>, limit: int)
    requires |page| == limit && forall k :: 0 <= k < |rest| - 1 ==> |rest[k]| == limit
    ensures Joined([page] + rest) == page + Joined(rest)
    ensures forall k :: 0 <= k < |rest| ==> |([page] + rest)[k]| == limit
  {
    assert ([page] + rest)[1..] == rest;
  }

  /** Following nextOffset from 0 ends, partitions the list, and takes as many pages as needed. */
  lemma PagingPartitions(xs: seq<Item>, limit: int)
    requires limit >= 1
    ensures Joined(Pages(xs, limit, 0)) == xs
    ensures JustEnough(|Pages(xs, limit, 0)|, |xs|, limit)
    ensures forall k :: 0 <= k < |Pages(xs, limit, 0)| - 1 ==> |Pages(xs, limit, 0)[k]| == limit
  {
    PagesFrom(xs, limit, 0);
    assert xs[0..] == xs;
  }

  /** A page counts the whole list, holds the items from its offset on up to its limit, and names the next offset
      iff there is more. */
  lemma PageHolds(xs: seq<Item>, offset: nat, limit: nat)
    ensures var p := PageOf(xs, offset, limit);
            p.total == |xs| && (p.hasMore <==> offset + limit < |xs|) &&
            p.nextOffset == (if offset + limit < |xs| then Some(offset + limit) else None) &&
            |p.items| == (if offset >= |xs| then 0 else if offset + limit < |xs| then limit else |xs| - offset) &&
            forall i :: 0 <= i < |p.items| ==> p.items[i] == xs[offset + i]
  {
  }

  /** A negative offset counts from the end, and a page that would end at the end of the list is empty. */
  lemma NegativeOffset(xs: seq<Item>, k: int, limit: int)
    requires 0 < k <= |xs| && 0 <= limit <= k
    ensures PageOf(xs, -k, limit).items == if limit < k then xs[|xs| - k..|xs| - k + limit] else []
  {
  }

  /** hasMore tells whether some later page holds anything. */
  lemma HasMoreIffLaterItems(xs: seq<Item>, offset: nat, limit: int)
    requires limit >= 1
    ensures PageOf(xs, offset, limit).hasMore <==>
            exists later: int :: later >= offset + limit && PageOf(xs, later, limit).items != []
  {
    if offset + limit < |xs| {
      var later := offset + limit;
      assert PageOf(xs, later, limit).items != [];
    }
  }

  // ---- fan-out ----

  /** A provider either raises, or answers with items, a metric and perhaps an error text. */
  datatype Outcome = Raised(message: string) | Answered(items: seq<Item>, found: int, err: Option<string>)

  predicate Failed(o: Outcome) {
    o.Raised? || (o.err.Some? && o.err.value != "")
  }

  function ItemsOf(o: Outcome): seq<Item> {
    if Failed(o) then [] else o.items
  }

  function Merged(outcomes: seq<Outcome>): seq<Item> {
    if outcomes == [] then []
    else Merged(outcomes[..|outcomes| - 1]) + ItemsOf(outcomes[|outcomes| - 1])
  }

  /** The largest share that n providers can have of the limit, and at least one. */
  function PerTarget(maxResults: int, n: nat): (share: int)
    ensures share >= 1
    ensures n >= 1 && share > 1 ==> share * n <= maxResults
    ensures n >= 1 ==> maxResults < (share + 1) * n
  {
    ShareIsLargest(maxResults, if n > 1 then n else 1);
    var share := maxResults / (if n > 1 then n else 1);
    if share > 1 then share else 1
  }

  lemma ShareIsLargest(m: int, n: int)
    requires n >= 1
    ensures m / n * n <= m < (m / n + 1) * n
    ensures m / n <= 1 ==> m < 2 * n
  {
    var q := m / n;
    assert m == q * n + m % n;
    assert (q + 1) * n == q * n + n;
    if q <= 1 {
      assert q * n <= n;
    }
  }

  /** Results found by a provider, as its metrics record them; a failed one records none. */
  function FoundBy(o: Outcome): int {
    if Failed(o) then 0 else o.found
  }

  function UsedCount(outcomes: seq<Outcome>): nat {
    if outcomes == [] then 0
    else UsedCount(outcomes[..|outcomes| - 1]) + (if Failed(outcomes[|outcomes| - 1]) then 0 else 1)
  }

  /** What each target's metric is; of targets listed twice the later counts, and one that raised leaves none. */
  function Metrics(targets: seq<string>, outcomes: seq<Outcome>): map<string, int>
    requires |targets| == |outcomes|
  {
    if targets == [] then map[]
    else
      var last := |targets| - 1;
      var before := Metrics(targets[..last], outcomes[..last]);
      if outcomes[last].Raised? then before else before[targets[last] := FoundBy(outcomes[last])]
  }

  /** The message of a failed provider. */
  function ErrorOf(o: Outcome): seq<string> {
    if !Failed(o) then [] else if o.Raised? then [o.message] else [o.err.value]
  }

  function Errors(outcomes: seq<Outcome>): seq<string> {
    if outcomes == [] then []
    else Errors(outcomes[..|outcomes| - 1]) + ErrorOf(outcomes[|outcomes| - 1])
  }

  lemma OneMoreOutcome(targets: seq<string>, outcomes: seq<Outcome>, i: nat)
    requires i < |outcomes| == |targets|
    ensures var before, after, o := outcomes[..i], outcomes[..i + 1], outcomes[i];
            Merged(after) == Merged(before) + ItemsOf(o) && Errors(after) == Errors(before) + ErrorOf(o) &&
            UsedCount(after) == UsedCount(before) + (if Failed(o) then 0 else 1) &&
            Metrics(targets[..i + 1], after) ==
              if o.Raised? then Metrics(targets[..i], before) else Metrics(targets[..i], before)[targets[i] := FoundBy(o)]
  {
    assert outcomes[..i + 1][..i] == outcomes[..i] && targets[..i + 1][..i] == targets[..i];
  }

  /** The collection loop: every target is either used or an error, never both or neither. */
  method Gather(targets: seq<string>, outcomes: seq<Outcome>)
    returns (all: seq<Item>, used: nat, errors: seq<string>, metrics: map<string, int>)
    requires |targets| == |outcomes|
    ensures all == Merged(outcomes) && metrics == Metrics(targets, outcomes)
    ensures used == UsedCount(outcomes) && errors == Errors(outcomes) && used + |errors| == |targets|
  {
    all, used, errors, metrics := [], 0, [], map[];
    for i := 0 to |outcomes|
      invariant all == Merged(outcomes[..i]) && metrics == Metrics(targets[..i], outcomes[..i])
      invariant used == UsedCount(outcomes[..i]) && errors == Errors(outcomes[..i]) && used + |errors| == i
    {
      OneMoreOutcome(targets, outcomes, i);
      match outcomes[i] {
        case Raised(message) =>
          errors := errors + [message];
        case Answered(items, found, err) =>
          if err.Some? && err.value != "" {
            errors := errors + [err.value];
            metrics := metrics[targets[i] := 0];
          } else {
            used := used + 1;
            metrics := metrics[targets[i] := found];
            all := all + items;
          }
      }
    }
    assert outcomes[..|outcomes|] == outcomes && targets[..|targets|] == targets;
  }

  // ---- what is merged ----

  lemma {:induction false} MergedConcat(a: seq<Outcome>, b: seq<Outcome>)
    ensures Merged(a + b) == Merged(a) + Merged(b)
    ensures Errors(a + b) == Errors(a) + Errors(b)
    ensures UsedCount(a + b) == UsedCount(a) + UsedCount(b)
  {
    if b == [] {
      assert a + b == a;
    } else {
      var last := |b| - 1;
      MergedConcat(a, b[..last]);
      assert (a + b)[..|a + b| - 1] == a + b[..last] && (a + b)[|a + b| - 1] == b[last];
      Regroup(Merged(a), Merged(b[..last]), ItemsOf(b[last]));
      Regroup(Errors(a), Errors(b[..last]), ErrorOf(b[last]));
    }
  }

  /** What one provider adds: one that raised, its message; one that reports an error, the error; any other, all
      its items, in order. With MergedConcat this fixes the merge of any number. */
  lemma MergedOne(o: Outcome)
    ensures match o
            case Raised(message) => Merged([o]) == [] && Errors([o]) == [message] && UsedCount([o]) == 0
            case Answered(items, _, err) =>
              if err == None || err == Some("") then Merged([o]) == items && Errors([o]) == [] && UsedCount([o]) == 1
              else Merged([o]) == [] && Errors([o]) == [err.value] && UsedCount([o]) == 0
  {
    assert [o][..0] == [] && [] + ItemsOf(o) == ItemsOf(o) && [] + ErrorOf(o) == ErrorOf(o);
  }

  /** The metric kept for a target is that of its last outcome that did not raise: what an answer says it found,
      or none for an error. */
  lemma {:induction false} MetricsAre(targets: seq<string>, outcomes: seq<Outcome>, t: string)
    requires |targets| == |outcomes|
    ensures t in Metrics(targets, outcomes) <==>
            exists k :: 0 <= k < |targets| && targets[k] == t && outcomes[k].Answered?
    ensures t in Metrics(targets, outcomes) ==>
            exists k :: 0 <= k < |targets| && targets[k] == t && outcomes[k].Answered? &&
                        (forall j :: k < j < |targets| && targets[j] == t ==> outcomes[j].Raised?) &&
                        Metrics(targets, outcomes)[t] ==
                          if outcomes[k].err == None || outcomes[k].err == Some("") then outcomes[k].found else 0
  {
    if targets != [] {
      var last := |targets| - 1;
      MetricsAre(targets[..last], outcomes[..last], t);
    }
  }

  lemma {:induction false} InsertKeepsAll(x: Item, xs: seq<Item>)
    ensures multiset(Insert(x, xs)) == multiset{x} + multiset(xs)
  {
    if xs != [] && xs[0].score > x.score {
      InsertKeepsAll(x, xs[1..]);
      assert xs == [xs[0]] + xs[1..];
    }
  }

  /** The sort loses and invents nothing. */
  lemma {:induction false} SortKeepsAll(xs: seq<Item>)
    ensures multiset(SortDesc(xs)) == multiset(xs)
  {
    if xs != [] {
      SortKeepsAll(xs[1..]);
      InsertKeepsAll(xs[0], SortDesc(xs[1..]));
      assert xs == [xs[0]] + xs[1..];
    }
  }

  lemma {:induction false} MergedMembers(outcomes: seq<Outcome>, x: Item)
    ensures x in Merged(outcomes) <==>
            exists k :: 0 <= k < |outcomes| && outcomes[k].Answered? &&
                        (outcomes[k].err == None || outcomes[k].err == Some("")) && x in outcomes[k].items
  {
    if outcomes != [] {
      var last := |outcomes| - 1;
      MergedMembers(outcomes[..last], x);
      assert forall k :: 0 <= k < last ==> outcomes[..last][k] == outcomes[k];
    }
  }

  /** Without a filter the pages together hold every item of every answer without error, as often as it was given,
      and nothing else. */
  lemma PagesHoldAllItems(outcomes: seq<Outcome>, limit: int, x: Item)
    requires limit >= 1
    ensures multiset(Joined(Pages(Listed(outcomes, None), limit, 0))) == multiset(Merged(outcomes))
    ensures x in Joined(Pages(Listed(outcomes, None), limit, 0)) <==>
            exists k :: 0 <= k < |outcomes| && outcomes[k].Answered? &&
                        (outcomes[k].err == None || outcomes[k].err == Some("")) && x in outcomes[k].items
  {
    PagingPartitions(Listed(outcomes, None), limit);
    SortKeepsAll(Merged(outcomes));
    MergedMembers(outcomes, x);
    var joined := Joined(Pages(Listed(outcomes, None), limit, 0));
    assert x in joined <==> x in multiset(joined);
    assert x in Merged(outcomes) <==> x in multiset(Merged(outcomes));
  }

  /** With a filter they hold those of them that meet every condition given, as often as they were given. */
  lemma PagesHoldFilteredItems(outcomes: seq<Outcome>, f: Filter, limit: int, x: Item)
    requires limit >= 1
    ensures multiset(Joined(Pages(Listed(outcomes, Some(f)), limit, 0)))[x] ==
            if (f.sourceTypes == None || (x.sourceType.Some? && x.sourceType.value in f.sourceTypes.value)) &&
               (f.kinds == None || (x.kind.Some? && x.kind.value in f.kinds.value)) &&
               (f.language == None || x.language == f.language) && (f.minScore == None || x.score >= f.minScore.value)
            then multiset(Merged(outcomes))[x] else 0
  {
    PagingPartitions(Listed(outcomes, Some(f)), limit);
    SortKeepsAll(Merged(outcomes));
    FilteredCounts(SortDesc(Merged(outcomes)), f, x);
  }

  lemma {:induction false} FilteredCounts(xs: seq<Item>, f: Filter, x: Item)
    ensures multiset(Filtered(xs, Some(f)))[x] == if Passes(x, f) then multiset(xs)[x] else 0
  {
    if xs != [] {
      FilteredCounts(xs[1..], f, x);
      assert xs == [xs[0]] + xs[1..];
    }
  }

  /** If every provider keeps to its share, the merged list is no longer than the limit, or than the number
      of providers where that is larger. */
  lemma {:induction false} MergedWithinBudget(outcomes: seq<Outcome>, share: int)
    requires share >= 1 && forall k :: 0 <= k < |outcomes| ==> |ItemsOf(outcomes[k])| <= share
    ensures |Merged(outcomes)| <= |outcomes| * share
  {
    if outcomes != [] {
      var last := |outcomes| - 1;
      MergedWithinBudget(outcomes[..last], share);
      Times(last, share);
      assert |Merged(outcomes)| == |Merged(outcomes[..last])| + |ItemsOf(outcomes[last])|;
    }
  }

  lemma FanOutBudget(outcomes: seq<Outcome>, maxResults: int)
    requires WithinShares(outcomes, maxResults)
    ensures |Merged(outcomes)| <= maxResults || |Merged(outcomes)| <= |outcomes|
  {
    var n := |outcomes|;
    MergedWithinBudget(outcomes, PerTarget(maxResults, n));
    if n > 0 {
      ShareFits(maxResults, n);
    }
  }

  lemma {:induction false} FilterAndSortAddNothing(xs: seq<Item>, filt: Option<Filter>)
    ensures |Filtered(xs, filt)| <= |xs| && |SortDesc(xs)| == |xs|
  {
    if xs != [] {
      FilterAndSortAddNothing(xs[1..], filt);
      InsertAddsOne(xs[0], SortDesc(xs[1..]));
    }
  }

  lemma {:induction false} InsertAddsOne(x: Item, xs: seq<Item>)
    ensures |Insert(x, xs)| == |xs| + 1
  {
    if xs != [] && xs[0].score > x.score {
      InsertAddsOne(x, xs[1..]);
    }
  }

  /** Every provider keeps to its share of the limit. */
  ghost predicate WithinShares(outcomes: seq<Outcome>, limit: int) {
    forall k :: 0 <= k < |outcomes| ==> |ItemsOf(outcomes[k])| <= PerTarget(limit, |outcomes|)
  }

  /** What a search pages over. */
  function Listed(outcomes: seq<Outcome>, filt: Option<Filter>): seq<Item> {
    Filtered(SortDesc(Merged(outcomes)), filt)
  }

  /** Since every provider is asked only for its share of one page, a search with no more providers than the
      limit, all of which keep to it, has no second page. */
  lemma NoSecondPage(outcomes: seq<Outcome>, limit: int, filt: Option<Filter>, offset: nat)
    requires WithinShares(outcomes, limit) && |outcomes| <= limit
    ensures !PageOf(Listed(outcomes, filt), 0, limit).hasMore
    ensures offset >= limit ==> PageOf(Listed(outcomes, filt), offset, limit).items == []
  {
    FanOutBudget(outcomes, limit);
    FilterAndSortAddNothing(Merged(outcomes), filt);
    FilterAndSortAddNothing(SortDesc(Merged(outcomes)), filt);
  }

  /** n providers can fill a second page although they keep to their shares. */
  ghost predicate SecondPagePossible(n: nat, limit: int) {
    exists outcomes, filt :: |outcomes| == n && WithinShares(outcomes, limit) &&
                             PageOf(Listed(outcomes, filt), 0, limit).hasMore
  }

  function OneItemEach(n: nat): (outcomes: seq<Outcome>)
    ensures |outcomes| == n
    ensures forall k :: 0 <= k < n ==> !Failed(outcomes[k]) && |ItemsOf(outcomes[k])| == 1
  {
    seq(n, _ => Answered([Item("hit", 1.0, None, None, None)], 1, None))
  }

  lemma {:induction false} MergedOnes(outcomes: seq<Outcome>)
    requires forall k :: 0 <= k < |outcomes| ==> |ItemsOf(outcomes[k])| == 1
    ensures |Merged(outcomes)| == |outcomes|
  {
    if outcomes != [] {
      MergedOnes(outcomes[..|outcomes| - 1]);
    }
  }

  /** A second page is possible exactly when there are more providers than the limit, each of which may still
      give one item. */
  lemma SecondPageIffMoreProviders(n: nat, limit: int)
    requires limit >= 1
    ensures SecondPagePossible(n, limit) <==> n > limit
  {
    if SecondPagePossible(n, limit) {
      var outcomes, filt :| |outcomes| == n && WithinShares(outcomes, limit) &&
                            PageOf(Listed(outcomes, filt), 0, limit).hasMore;
      if n <= limit {
        NoSecondPage(outcomes, limit, filt, 0);
      }
    }
    if n > limit {
      var outcomes := OneItemEach(n);
      MergedOnes(outcomes);
      FilterAndSortAddNothing(Merged(outcomes), None);
      assert Listed(outcomes, None) == SortDesc(Merged(outcomes));
      assert WithinShares(outcomes, limit) && PageOf(Listed(outcomes, None), 0, limit).hasMore;
    }
  }

  lemma ShareFits(m: int, n: nat)
    requires n > 0
    ensures n * (m / n) <= m
  {
    var q, r := m / n, m % n;
    assert m == n * q + r;
  }

  // ---- the search, with at most one re-index ----

  datatype Request = Request(
    maxResults: int, offset: int, resultFilter: Option<Filter>, autoIndex: bool, repoPathIsDir: bool, forced: bool)

  datatype Response = Response(page: Page, used: nat, errors: seq<string>)

  const DB_PROVIDERS := {"codebase", "graph", "crossproject", "codeindex"}

  predicate Database(target: string) {
    target == "codebase" || target == "graph" || target == "crossproject" || target == "codeindex"
  }

  /** Some database provider among the targets found something, or there is none among them. */
  ghost predicate HaveData(targets: seq<string>, metrics: map<string, int>) {
    (forall t :: t in targets ==> !Database(t)) ||
    (exists t :: t in targets && Database(t) && t in metrics && metrics[t] > 0)
  }

  lemma DatabaseNames(target: string)
    ensures target in DB_PROVIDERS <==> Database(target)
  {
  }

  method CheckData(targets: seq<string>, metrics: map<string, int>) returns (have: bool)
    ensures have <==> HaveData(targets, metrics)
  {
    var active := false;
    for i := 0 to |targets|
      invariant active <==> exists k :: 0 <= k < i && Database(targets[k])
      invariant forall k :: 0 <= k < i && Database(targets[k]) && targets[k] in metrics ==> metrics[targets[k]] <= 0
    {
      DatabaseNames(targets[i]);
      if targets[i] in DB_PROVIDERS {
        active := true;
        if targets[i] in metrics && metrics[targets[i]] > 0 {
          return true;
        }
      }
    }
    return !active;
  }

  class SearchEngine {
    /** How often providers have been asked, and the index rebuilt. */
    var fanOuts: nat
    var rebuilds: nat

    constructor ()
      ensures fanOuts == 0 && rebuilds == 0
    {
      fanOuts, rebuilds := 0, 0;
    }

    /** One search: outcomes(a) is what the providers answer on attempt a, stale(a) whether the index then
        wants an update. It ends after at most two fan-outs and one rebuild, and answers from the last. */
    method SearchWithContext(req: Request, targets: seq<string>, outcomes: nat -> seq<Outcome>, stale: nat -> bool, attempt: nat)
      returns (r: Response, last: nat)
      requires forall a :: |outcomes(a)| == |targets|
      modifies this
      ensures attempt <= last <= attempt + 1
      ensures fanOuts == old(fanOuts) + (last - attempt) + 1 && rebuilds == old(rebuilds) + (last - attempt)
      ensures last > attempt <==>
                req.autoIndex && attempt < 1 && !HaveData(targets, Metrics(targets, outcomes(attempt))) &&
                req.repoPathIsDir && (stale(attempt) || req.forced)
      ensures r.page == PageOf(Filtered(SortDesc(Merged(outcomes(last))), req.resultFilter), req.offset, req.maxResults)
      ensures r.used == UsedCount(outcomes(last)) && r.errors == Errors(outcomes(last)) && r.used + |r.errors| == |targets|
      decreases if attempt < 1 then 1 - attempt else 0
    {
      fanOuts := fanOuts + 1;
      var all, used, errors, metrics := Gather(targets, outcomes(attempt));
      var have := CheckData(targets, metrics);
      if req.autoIndex && attempt < 1 && !have && req.repoPathIsDir {
        if stale(attempt) || req.forced {
          rebuilds := rebuilds + 1;
          r, last := SearchWithContext(req, targets, outcomes, stale, attempt + 1);
          return;
        }
      }
      var sorted := SortDesc(all);
      var kept := ApplyResultFilter(sorted, req.resultFilter);
      r, last := Response(PageOf(kept, req.offset, req.maxResults), used, errors), attempt;
    }

    method Search(req: Request, targets: seq<string>, outcomes: nat -> seq<Outcome>, stale: nat -> bool)
      returns (r: Response, last: nat)
      requires forall a :: |outcomes(a)| == |targets|
      modifies this
      ensures last <= 1 && fanOuts == old(fanOuts) + last + 1 && rebuilds == old(rebuilds) + last
      ensures fanOuts <= old(fanOuts) + 2 && rebuilds <= old(rebuilds) + 1
      ensures r.page == PageOf(Filtered(SortDesc(Merged(outcomes(last))), req.resultFilter), req.offset, req.maxResults)
      ensures r.used == UsedCount(outcomes(last)) && r.errors == Errors(outcomes(last)) && r.used + |r.errors| == |targets|
    {
      r, last := SearchWithContext(req, targets, outcomes, stale, 0);
    }
  }
}
