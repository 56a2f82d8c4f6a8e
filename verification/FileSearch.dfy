/** The two loops of the file-system provider over the pruned walk: folder names first, then files,
    both under one cap on the number of results. */
module FileSearch {
  import opened Sequences
  import opened Wrappers
  import opened IgnoreRules
  import opened PrunedWalk
  import opened SecurityFilters
  import opened ContentMask

  // ---- the walk's pending directories, next one last ----

  ghost function StackVisits(s: Settings, stack: seq<Visit>): seq<Visit>
    requires s.root != ""
  {
    if stack == [] then []
    else
      var last := |stack| - 1;
      Visited(s, stack[last].rel, stack[last].dir) + StackVisits(s, stack[..last])
  }

  function Size(d: Dir): nat
    decreases d, 1
  {
    1 + SizeSubs(d.subs)
  }

  function SizeSubs(subs: seq<Entry>): nat
    decreases subs, 0
  {
    if subs == [] then 0 else Size(subs[0].dir) + SizeSubs(subs[1..])
  }

  ghost function StackSize(stack: seq<Visit>): nat {
    if stack == [] then 0 else StackSize(stack[..|stack| - 1]) + Size(stack[|stack| - 1].dir)
  }

  /** The sub-directories left after pruning. */
  ghost function KeptSubs(s: Settings, rel: seq<string>, subs: seq<Entry>): seq<Entry> {
    if subs == [] then []
    else
      var last := |subs| - 1;
      KeptSubs(s, rel, subs[..last]) + (if KeptDir(s, rel + [subs[last].name]) then [subs[last]] else [])
  }

  lemma {:induction false} KeptSubsFirst(s: Settings, rel: seq<string>, subs: seq<Entry>)
    requires subs != []
    ensures KeptSubs(s, rel, subs) ==
            (if KeptDir(s, rel + [subs[0].name]) then [subs[0]] else []) + KeptSubs(s, rel, subs[1..])
  {
    var last := |subs| - 1;
    if last > 0 {
      KeptSubsFirst(s, rel, subs[..last]);
      assert subs[..last][1..] == subs[1..][..last - 1];
      assert subs[1..][last - 1] == subs[last];
    } else {
      assert subs[..0] == [] && subs[1..] == [];
    }
  }

  /** Pushing the kept sub-directories, last first, makes the walk go on with exactly what it should visit. */
  ghost function Pushed(rel: seq<string>, kept: seq<Entry>): seq<Visit> {
    if kept == [] then [] else Pushed(rel, kept[1..]) + [Visit(rel + [kept[0].name], kept[0].dir)]
  }

  lemma {:induction false} StackVisitsConcat(s: Settings, a: seq<Visit>, b: seq<Visit>)
    requires s.root != ""
    ensures StackVisits(s, a + b) == StackVisits(s, b) + StackVisits(s, a)
    ensures StackSize(a + b) == StackSize(a) + StackSize(b)
  {
    if b == [] {
      assert a + b == a;
    } else {
      var last := |b| - 1;
      StackVisitsConcat(s, a, b[..last]);
      Regroup(Visited(s, b[last].rel, b[last].dir), StackVisits(s, b[..last]), StackVisits(s, a));
      assert (a + b)[..|a + b| - 1] == a + b[..last] && (a + b)[|a + b| - 1] == b[last];
    }
  }

  lemma {:induction false} PushedVisits(s: Settings, rel: seq<string>, subs: seq<Entry>)
    requires s.root != ""
    ensures StackVisits(s, Pushed(rel, KeptSubs(s, rel, subs))) == VisitedSubs(s, rel, subs)
    ensures StackSize(Pushed(rel, KeptSubs(s, rel, subs))) <= SizeSubs(subs)
  {
    if subs != [] {
      PushedVisits(s, rel, subs[1..]);
      KeptSubsFirst(s, rel, subs);
      var kept, below := KeptSubs(s, rel, subs[1..]), rel + [subs[0].name];
      if KeptDir(s, below) {
        var all := KeptSubs(s, rel, subs);
        assert all[0] == subs[0] && all[1..] == kept;
        var v := Visit(below, subs[0].dir);
        assert Pushed(rel, all) == Pushed(rel, kept) + [v];
        StackTop(s, Pushed(rel, kept), v);
      } else {
        assert KeptSubs(s, rel, subs) == kept;
      }
    }
  }

  lemma StackTop(s: Settings, stack: seq<Visit>, v: Visit)
    requires s.root != ""
    ensures StackVisits(s, stack + [v]) == Visited(s, v.rel, v.dir) + StackVisits(s, stack)
    ensures StackSize(stack + [v]) == StackSize(stack) + Size(v.dir)
  {
    assert (stack + [v])[..|stack|] == stack;
  }

  /** The walk consults the filter's own rules. */
  ghost predicate Consults(s: Settings, filter: SecurityFilter)
    reads filter
  {
    s.root != "" && s.rules == filter.gitignoreRules + filter.aiignoreRules && s.oracle == filter.oracle &&
    filter.Valid()
  }

  /** `dirs[:] = [...]`, twice: skipped and dot names go, then ignored directories. */
  method PruneDirs(filter: SecurityFilter, s: Settings, rel: seq<string>, subs: seq<Entry>) returns (kept: seq<Entry>)
    requires Consults(s, filter)
    ensures kept == KeptSubs(s, rel, subs)
  {
    kept := [];
    for i := 0 to |subs|
      invariant kept == KeptSubs(s, rel, subs[..i])
    {
      assert subs[..i + 1][..i] == subs[..i];
      var name := subs[i].name;
      if name !in s.skip && !(s.dotted && name != "" && name[0] == '.') {
        var ignored := filter.IsIgnored(Path(rel + [name]), true);
        if !ignored {
          kept := kept + [subs[i]];
        }
      }
    }
    assert subs[..|subs|] == subs;
  }

  /** Putting the kept sub-directories on the stack so that the first is on top. */
  method Push(stack: seq<Visit>, rel: seq<string>, kept: seq<Entry>) returns (r: seq<Visit>)
    ensures r == stack + Pushed(rel, kept)
  {
    r := stack;
    var i := |kept|;
    while i > 0
      invariant 0 <= i <= |kept|
      invariant r == stack + Pushed(rel, kept[i..])
    {
      i := i - 1;
      assert kept[i..][1..] == kept[i + 1..];
      r := r + [Visit(rel + [kept[i].name], kept[i].dir)];
    }
    assert kept[0..] == kept;
  }

  // ---- the cap ----

  function Capped<T>(n: int, xs: seq<T>): (r: seq<T>)
    ensures r <= xs && |r| == if n <= 0 then 0 else if n <= |xs| then n else |xs|
  {
    if n <= 0 then [] else if n >= |xs| then xs else xs[..n]
  }

  lemma CappedExtends<T>(n: int, xs: seq<T>, ys: seq<T>)
    ensures |Capped(n, xs)| >= n ==> Capped(n, xs + ys) == Capped(n, xs)
    ensures |Capped(n, xs)| < n ==> Capped(n, xs) == xs
    ensures |Capped(n, xs)| < n && |ys| <= 1 ==> Capped(n, xs + ys) == xs + ys
  {
  }

  /** A smaller cap gives a prefix of what a larger cap gives. */
  lemma SmallerCapIsPrefix<T>(m: int, n: int, xs: seq<T>)
    requires m <= n
    ensures Capped(m, xs) <= Capped(n, xs)
  {
  }

  // ---- files ----

  function FilePath(s: Settings, file: seq<string>): string {
    DirPath(s.root, file)
  }

  /** What a search asks of files: whether the name fits a file pattern, whether the file is too large, its
      text where reading does not raise, whether a name or a text matches. There is no name match without
      a query. */
  datatype Query = Query(
    patterned: seq<string> -> bool, oversized: seq<string> -> bool, content: seq<string> -> Option<string>,
    named: Option<string -> bool>, finds: string -> bool)

  /** A file result carries the text its snippet and content are cut from, none if it could not be read. */
  datatype Hit = Folder(path: seq<string>) | File(path: seq<string>, text: Option<string>)

  predicate NameMatches(q: Query, file: seq<string>) {
    q.named.Some? && file != [] && q.named.value(file[|file| - 1])
  }

  /** The first security check: path, sensitive name and ignore rules, asked about the file as a file. */
  ghost predicate Permitted(filter: SecurityFilter, s: Settings, file: seq<string>)
    reads filter
  {
    var path := FilePath(s, file);
    filter.pathDenied(path).None? && filter.sensitiveFile(path).None? &&
    !filter.IgnoredFile(filter.Asked(path, Some(Path(file))))
  }

  /** What the loop makes of a file it may look into; the second security check is on the content. */
  ghost function Read(filter: SecurityFilter, q: Query, file: seq<string>): Option<Hit>
    requires filter.Valid()
    reads filter
  {
    match q.content(file)
    case None => if NameMatches(q, file) then Some(File(file, None)) else None
    case Some(text) =>
      var shown := filter.Shown(text);
      if shown.Some? && (NameMatches(q, file) || q.finds(shown.value) || q.named.None?)
      then Some(File(file, shown)) else None
  }

  /** What it makes of any file. */
  ghost function Result(filter: SecurityFilter, s: Settings, q: Query, file: seq<string>): Option<Hit>
    requires filter.Valid()
    reads filter
  {
    if q.patterned(file) && Permitted(filter, s, file) && !q.oversized(file) then Read(filter, q, file) else None
  }

  function AsSeq<T>(o: Option<T>): seq<T> {
    if o.Some? then [o.value] else []
  }

  ghost function Selected(filter: SecurityFilter, s: Settings, q: Query, files: seq<seq<string>>): seq<Hit>
    requires filter.Valid()
    reads filter
  {
    if files == [] then []
    else
      var last := |files| - 1;
      Selected(filter, s, q, files[..last]) + AsSeq(Result(filter, s, q, files[last]))
  }

  lemma {:induction false} SelectedConcat(
      filter: SecurityFilter, s: Settings, q: Query, a: seq<seq<string>>, b: seq<seq<string>>)
    requires filter.Valid()
    ensures Selected(filter, s, q, a + b) == Selected(filter, s, q, a) + Selected(filter, s, q, b)
  {
    if b == [] {
      assert a + b == a;
    } else {
      var last := |b| - 1;
      SelectedConcat(filter, s, q, a, b[..last]);
      assert (a + b)[..|a + b| - 1] == a + b[..last] && (a + b)[|a + b| - 1] == b[last];
      Regroup(Selected(filter, s, q, a), Selected(filter, s, q, b[..last]), AsSeq(Result(filter, s, q, b[last])));
    }
  }

  lemma {:induction false} SelectedAreResults(filter: SecurityFilter, s: Settings, q: Query, files: seq<seq<string>>, hit: Hit)
    requires filter.Valid() && hit in Selected(filter, s, q, files)
    ensures exists file :: file in files && Result(filter, s, q, file) == Some(hit)
  {
    var last := |files| - 1;
    if hit in Selected(filter, s, q, files[..last]) {
      SelectedAreResults(filter, s, q, files[..last], hit);
    } else {
      assert files[last] in files;
    }
  }

  /** The answer so far, after one more file has been looked at. */
  lemma OneMoreFile(filter: SecurityFilter, s: Settings, q: Query, seen: seq<seq<string>>, file: seq<string>, cap: int)
    requires filter.Valid()
    ensures var before := Capped(cap, Selected(filter, s, q, seen));
            |before| < cap ==>
              Capped(cap, Selected(filter, s, q, seen + [file])) == before + AsSeq(Result(filter, s, q, file))
  {
    assert (seen + [file])[..|seen|] == seen;
    CappedExtends(cap, Selected(filter, s, q, seen), AsSeq(Result(filter, s, q, file)));
  }

  /** Once the cap is reached, further files change nothing. */
  lemma FullStaysFull(filter: SecurityFilter, s: Settings, q: Query, seen: seq<seq<string>>, more: seq<seq<string>>, cap: int)
    requires filter.Valid() && |Capped(cap, Selected(filter, s, q, seen))| >= cap
    ensures Capped(cap, Selected(filter, s, q, seen + more)) == Capped(cap, Selected(filter, s, q, seen))
  {
    SelectedConcat(filter, s, q, seen, more);
    CappedExtends(cap, Selected(filter, s, q, seen), Selected(filter, s, q, more));
  }

  method Permit(filter: SecurityFilter, s: Settings, file: seq<string>) returns (r: bool)
    requires Consults(s, filter)
    ensures r == Permitted(filter, s, file)
  {
    var verdict;
    ghost var h;
    verdict, h := filter.CheckFile(FilePath(s, file), None, Some(Path(file)));
    return verdict.allowed;
  }

  /** The second security check, on the content. */
  method ShownContent(filter: SecurityFilter, text: string) returns (shown: Option<string>)
    requires filter.Valid()
    ensures shown == filter.Shown(text)
  {
    var processed;
    ghost var h;
    processed, h := filter.ProcessContent(text);
    if processed.action == Block {
      return None;
    }
    return Some(processed.text);
  }

  method ReadFile(filter: SecurityFilter, q: Query, file: seq<string>) returns (r: Option<Hit>)
    requires filter.Valid()
    ensures r == Read(filter, q, file)
  {
    match q.content(file) {
      case None =>
        return if NameMatches(q, file) then Some(File(file, None)) else None;
      case Some(text) =>
        var shown := ShownContent(filter, text);
        if shown.None? || (!NameMatches(q, file) && !q.finds(shown.value) && q.named.Some?) {
          return None;
        }
        return Some(File(file, shown));
    }
  }

  /** The body of the file loop. */
  method LookAt(filter: SecurityFilter, s: Settings, q: Query, file: seq<string>) returns (r: Option<Hit>)
    requires Consults(s, filter)
    ensures r == Result(filter, s, q, file)
  {
    if !q.patterned(file) {
      return None;
    }
    var permitted := Permit(filter, s, file);
    if !permitted || q.oversized(file) {
      return None;
    }
    r := ReadFile(filter, q, file);
  }

  lemma PrefixGrows<T>(seen: seq<T>, files: seq<T>, i: nat)
    requires i < |files|
    ensures seen + files[..i + 1] == (seen + files[..i]) + [files[i]]
    ensures (seen + files[..i]) + files[i..] == seen + files
  {
  }

  /** The loop over the files of one directory, which stops adding at the cap. */
  method CollectFrom(filter: SecurityFilter, s: Settings, q: Query, files: seq<seq<string>>,
                     soFar: seq<Hit>, room: int, ghost seen: seq<seq<string>>)
    returns (results: seq<Hit>)
    requires Consults(s, filter) && soFar == Capped(room, Selected(filter, s, q, seen))
    ensures results == Capped(room, Selected(filter, s, q, seen + files))
  {
    results := soFar;
    ghost var looked := seen;
    for i := 0 to |files|
      invariant looked == seen + files[..i]
      invariant results == Capped(room, Selected(filter, s, q, looked))
    {
      PrefixGrows(seen, files, i);
      if |results| >= room {
        FullStaysFull(filter, s, q, looked, files[i..], room);
        return;
      }
      OneMoreFile(filter, s, q, looked, files[i], room);
      var hit := LookAt(filter, s, q, files[i]);
      if hit.Some? {
        results := results + [hit.value];
      }
      looked := looked + [files[i]];
    }
    assert files[..|files|] == files;
  }

  lemma {:induction false} FilesOfConcat(a: seq<Visit>, b: seq<Visit>)
    ensures FilesOf(a + b) == FilesOf(a) + FilesOf(b)
  {
    if a == [] {
      assert a + b == b;
    } else {
      FilesOfConcat(a[1..], b);
      HeadAndTail(a, b);
      Regroup(FilePaths(a[0].rel, a[0].dir.files), FilesOf(a[1..]), FilesOf(b));
    }
  }

  /** What taking one directory off the stack does to the walk still to come. */
  lemma PopOne(s: Settings, stack: seq<Visit>, kept: seq<Entry>)
    requires s.root != "" && stack != []
    requires var at := stack[|stack| - 1]; kept == KeptSubs(s, at.rel, at.dir.subs)
    ensures var at, rest := stack[|stack| - 1], stack[..|stack| - 1];
            StackVisits(s, stack) ==
              (if Depth(s.root, at.rel) > s.maxDepth then StackVisits(s, rest)
               else [at] + StackVisits(s, rest + Pushed(at.rel, kept))) &&
            StackSize(rest) < StackSize(stack) && StackSize(rest + Pushed(at.rel, kept)) < StackSize(stack)
  {
    var at, rest := stack[|stack| - 1], stack[..|stack| - 1];
    PushedVisits(s, at.rel, at.dir.subs);
    StackVisitsConcat(s, rest, Pushed(at.rel, kept));
  }

  /** The files seen, and those of the walk still to come, make up all files: so before and after a turn. */
  lemma WalkTurn(s: Settings, stack: seq<Visit>, kept: seq<Entry>, seen: seq<seq<string>>, all: seq<seq<string>>)
    requires s.root != "" && stack != []
    requires var at := stack[|stack| - 1]; kept == KeptSubs(s, at.rel, at.dir.subs)
    requires all == seen + FilesOf(StackVisits(s, stack))
    ensures var at, rest := stack[|stack| - 1], stack[..|stack| - 1];
            if Depth(s.root, at.rel) > s.maxDepth then all == seen + FilesOf(StackVisits(s, rest))
            else all == seen + FilePaths(at.rel, at.dir.files) + FilesOf(StackVisits(s, rest + Pushed(at.rel, kept)))
  {
    PopOne(s, stack, kept);
    var at, rest := stack[|stack| - 1], stack[..|stack| - 1];
    FilesOfConcat([at], StackVisits(s, rest + Pushed(at.rel, kept)));
    assert [at][1..] == [];
    Regroup(seen, FilePaths(at.rel, at.dir.files), FilesOf(StackVisits(s, rest + Pushed(at.rel, kept))));
  }

  lemma FirstStack(s: Settings, tree: Dir)
    requires s.root != ""
    ensures StackVisits(s, [Visit([], tree)]) == Visited(s, [], tree)
  {
    StackTop(s, [], Visit([], tree));
    assert [] + [Visit([], tree)] == [Visit([], tree)];
  }

  /** The file loop: the first so many accepted files of those reached, in walk order. The position of the
      next result counts from `first`. */
  method CollectFiles(filter: SecurityFilter, s: Settings, q: Query, tree: Dir,
                      maxResults: int, first: int)
    returns (results: seq<Hit>)
    requires Consults(s, filter)
    ensures results == Capped(maxResults - first + 1, Selected(filter, s, q, FilesReached(s, tree)))
  {
    results := [];
    var room := maxResults - first + 1;
    var stack := [Visit([], tree)];
    FirstStack(s, tree);
    ghost var all := FilesReached(s, tree);
    ghost var seen: seq<seq<string>> := [];
    while stack != []
      invariant all == seen + FilesOf(StackVisits(s, stack))
      invariant results == Capped(room, Selected(filter, s, q, seen))
      decreases StackSize(stack)
    {
      var at, rest := stack[|stack| - 1], stack[..|stack| - 1];
      var kept := PruneDirs(filter, s, at.rel, at.dir.subs);
      PopOne(s, stack, kept);
      WalkTurn(s, stack, kept, seen, all);
      if Depth(s.root, at.rel) > s.maxDepth {
        stack := rest;
      } else {
        var files := FilePaths(at.rel, at.dir.files);
        results := CollectFrom(filter, s, q, files, results, room, seen);
        stack := Push(rest, at.rel, kept);
        seen := seen + files;
      }
    }
    assert all == seen;
  }

  // ---- folder names ----

  /** The first kept sub-directory whose name matches, at most one per directory. */
  function FirstNamed(named: string -> bool, rel: seq<string>, kept: seq<Entry>): seq<seq<string>> {
    if kept == [] then []
    else if named(kept[0].name) then [rel + [kept[0].name]]
    else FirstNamed(named, rel, kept[1..])
  }

  ghost function DirMatches(s: Settings, named: string -> bool, visited: seq<Visit>): seq<seq<string>> {
    if visited == [] then []
    else FirstNamed(named, visited[0].rel, KeptSubs(s, visited[0].rel, visited[0].dir.subs)) +
         DirMatches(s, named, visited[1..])
  }

  lemma {:induction false} DirMatchesConcat(s: Settings, named: string -> bool, a: seq<Visit>, b: seq<Visit>)
    ensures DirMatches(s, named, a + b) == DirMatches(s, named, a) + DirMatches(s, named, b)
  {
    if a == [] {
      assert a + b == b;
    } else {
      DirMatchesConcat(s, named, a[1..], b);
      HeadAndTail(a, b);
      Regroup(FirstNamed(named, a[0].rel, KeptSubs(s, a[0].rel, a[0].dir.subs)),
              DirMatches(s, named, a[1..]), DirMatches(s, named, b));
    }
  }

  /** The folder loop; with a cap below one it gives up at once. */
  method CollectDirs(filter: SecurityFilter, s: Settings, named: string -> bool, tree: Dir, maxResults: int)
    returns (matches: seq<seq<string>>)
    requires Consults(s, filter)
    ensures matches == if maxResults < 1 then [] else DirMatches(s, named, Visited(s, [], tree))
  {
    matches := [];
    if maxResults < 1 {
      return;
    }
    var stack := [Visit([], tree)];
    FirstStack(s, tree);
    ghost var all := DirMatches(s, named, Visited(s, [], tree));
    while stack != []
      invariant all == matches + DirMatches(s, named, StackVisits(s, stack))
      decreases StackSize(stack)
    {
      var at, rest := stack[|stack| - 1], stack[..|stack| - 1];
      var kept := PruneDirs(filter, s, at.rel, at.dir.subs);
      PopOne(s, stack, kept);
      FolderTurn(s, named, stack, kept, matches, all);
      if Depth(s.root, at.rel) > s.maxDepth {
        stack := rest;
      } else {
        var found := MatchOne(named, at.rel, kept);
        matches := matches + found;
        stack := Push(rest, at.rel, kept);
      }
    }
    assert all == matches;
  }

  /** The matches found, and those of the walk still to come, make up all matches: so before and after a turn. */
  lemma FolderTurn(s: Settings, named: string -> bool, stack: seq<Visit>, kept: seq<Entry>,
                   found: seq<seq<string>>, all: seq<seq<string>>)
    requires s.root != "" && stack != []
    requires var at := stack[|stack| - 1]; kept == KeptSubs(s, at.rel, at.dir.subs)
    requires all == found + DirMatches(s, named, StackVisits(s, stack))
    ensures var at, rest := stack[|stack| - 1], stack[..|stack| - 1];
            if Depth(s.root, at.rel) > s.maxDepth then all == found + DirMatches(s, named, StackVisits(s, rest))
            else all == found + FirstNamed(named, at.rel, kept) + DirMatches(s, named, StackVisits(s, rest + Pushed(at.rel, kept)))
  {
    PopOne(s, stack, kept);
    var at, rest := stack[|stack| - 1], stack[..|stack| - 1];
    DirMatchesConcat(s, named, [at], StackVisits(s, rest + Pushed(at.rel, kept)));
    assert [at][1..] == [];
    Regroup(found, FirstNamed(named, at.rel, kept), DirMatches(s, named, StackVisits(s, rest + Pushed(at.rel, kept))));
  }

  method MatchOne(named: string -> bool, rel: seq<string>, kept: seq<Entry>) returns (found: seq<seq<string>>)
    ensures found == FirstNamed(named, rel, kept)
  {
    for i := 0 to |kept|
      invariant FirstNamed(named, rel, kept) == FirstNamed(named, rel, kept[i..])
    {
      if named(kept[i].name) {
        return [rel + [kept[i].name]];
      }
      assert kept[i..][1..] == kept[i + 1..];
    }
    return [];
  }

  // ---- both ----

  function Folders(paths: seq<seq<string>>): (r: seq<Hit>)
    ensures |r| == |paths| && forall k :: 0 <= k < |paths| ==> r[k] == Folder(paths[k])
  {
    seq(|paths|, k requires 0 <= k < |paths| => Folder(paths[k]))
  }

  /** Both passes skip the same directories by name; only the second also skips dot names. */
  function FolderPass(s: Settings): Settings {
    s.(skip := SKIP_DIRS, dotted := false)
  }

  function FilePass(s: Settings): Settings {
    s.(skip := SKIP_DIRS, dotted := true)
  }

  ghost function FolderPaths(s: Settings, named: Option<string -> bool>, tree: Dir): seq<seq<string>>
    requires s.root != ""
  {
    if named.None? then [] else DirMatches(s, named.value, Visited(s, [], tree))
  }

  ghost function FileHits(filter: SecurityFilter, s: Settings, q: Query, tree: Dir): seq<Hit>
    requires s.root != "" && filter.Valid()
    reads filter
  {
    Selected(filter, FilePass(s), q, FilesReached(FilePass(s), tree))
  }

  /** All hits there are: matching folders of the dot-tolerant walk, then the files of the strict one. */
  ghost function AllHits(filter: SecurityFilter, s: Settings, q: Query, tree: Dir): seq<Hit>
    requires s.root != "" && filter.Valid()
    reads filter
  {
    Folders(FolderPaths(FolderPass(s), q.named, tree)) + FileHits(filter, s, q, tree)
  }

  /** The provider's answer under a cap is the first so many of all hits; the folder pass runs only for a query. */
  method SearchFilesystem(filter: SecurityFilter, s: Settings, q: Query, tree: Dir, maxResults: int)
    returns (results: seq<Hit>)
    requires Consults(s, filter)
    ensures results == Capped(maxResults, AllHits(filter, s, q, tree))
  {
    var matches: seq<seq<string>> := [];
    if q.named.Some? {
      matches := CollectDirs(filter, FolderPass(s), q.named.value, tree, maxResults);
    }
    ghost var folders := FolderPaths(FolderPass(s), q.named, tree);
    assert matches == folders || (maxResults < 1 && matches == []);
    var shown := if 0 <= maxResults < |matches| then matches[..maxResults] else matches;
    assert shown == Capped(maxResults, folders);
    var files := CollectFiles(filter, FilePass(s), q, tree, maxResults, |shown| + 1);
    CappedSplit(maxResults, folders, FileHits(filter, s, q, tree));
    results := Folders(shown) + files;
  }

  lemma CappedSplit(n: int, folders: seq<seq<string>>, files: seq<Hit>)
    ensures Capped(n, Folders(folders) + files) ==
            Folders(Capped(n, folders)) + Capped(n - |Capped(n, folders)|, files)
  {
  }

  /** Asking for fewer results gives the beginning of the longer answer. */
  lemma FewerResultsAreAPrefix(filter: SecurityFilter, s: Settings, q: Query, tree: Dir, m: int, n: int)
    requires s.root != "" && filter.Valid() && m <= n
    ensures Capped(m, AllHits(filter, s, q, tree)) <= Capped(n, AllHits(filter, s, q, tree))
  {
    SmallerCapIsPrefix(m, n, AllHits(filter, s, q, tree));
  }

  /** Nothing else is shown of files: each file in an answer was reached by the walk and passed the check of its
      name; if it could be read, its content is not blocked, and what is shown is the content or, where
      something sensitive is in it, the masked content. */
  lemma OnlyPermittedIsShown(filter: SecurityFilter, s: Settings, q: Query, tree: Dir, n: int, hit: Hit)
    requires s.root != "" && filter.Valid()
    requires hit in Capped(n, AllHits(filter, s, q, tree)) && hit.File?
    ensures hit.path in FilesReached(FilePass(s), tree) && Permitted(filter, FilePass(s), hit.path)
    ensures match q.content(hit.path)
            case None => hit.text == None
            case Some(content) =>
              !filter.Blocks(content) &&
              hit.text == Some(if filter.Masks(content)
                               then MaskedText(filter.sensitivePatterns, filter.maskPlaceholder, content) else content)
  {
    assert hit in AllHits(filter, s, q, tree) && hit in FileHits(filter, s, q, tree);
    var files := FilesReached(FilePass(s), tree);
    SelectedAreResults(filter, FilePass(s), q, files, hit);
  }

  // ---- exactly which hits there are ----

  /** A directory the walks do not enter, by its name; only the file pass also keeps out of dot names. */
  predicate ClosedName(name: string, dotted: bool) {
    name == ".git" || name == "__pycache__" || name == "node_modules" || name == ".venv" || name == "venv" ||
    name == "dist" || name == "build" || name == ".next" || name == ".vscode" || name == ".idea" ||
    name == "target" || name == ".tox" || name == ".eggs" || (dotted && name != "" && name[0] == '.')
  }

  lemma ClosedNames(name: string)
    ensures name in SKIP_DIRS <==> ClosedName(name, false)
  {
  }

  /** The walk comes to the directory: all on the way, itself included, are shallow enough, open by name and not
      ignored as directories. */
  ghost predicate Comes(s: Settings, dotted: bool, dir: seq<string>)
    requires s.root != ""
  {
    (forall k :: 0 <= k <= |dir| ==> Depth(s.root, dir[..k]) <= s.maxDepth) &&
    (forall k :: 0 <= k < |dir| ==> Enters(s, dotted, dir, k))
  }

  ghost predicate Enters(s: Settings, dotted: bool, dir: seq<string>, k: int)
    requires 0 <= k < |dir|
  {
    !ClosedName(dir[k], dotted) && !Ignored(s.rules, Path(dir[..k + 1]), true, s.oracle)
  }

  lemma KeptIffEntered(s: Settings, dotted: bool, dir: seq<string>, k: nat)
    requires k < |dir|
    ensures KeptDir(s.(skip := SKIP_DIRS, dotted := dotted), dir[..k + 1]) <==> Enters(s, dotted, dir, k)
  {
    ClosedNames(dir[k]);
    assert dir[..k + 1][|dir[..k + 1]| - 1] == dir[k];
  }

  lemma OpenIffComes(s: Settings, dotted: bool, dir: seq<string>)
    requires s.root != ""
    ensures OpenTo(s.(skip := SKIP_DIRS, dotted := dotted), [], dir) <==> Comes(s, dotted, dir)
  {
    var pass := s.(skip := SKIP_DIRS, dotted := dotted);
    forall k | 0 <= k <= |dir| ensures [] + dir[..k] == dir[..k] {}
    forall k | 0 <= k < |dir| ensures KeptDir(pass, dir[..k + 1]) == Enters(s, dotted, dir, k) {
      KeptIffEntered(s, dotted, dir, k);
    }
    if OpenTo(pass, [], dir) {
      forall k | 0 <= k < |dir| ensures Enters(s, dotted, dir, k) {
        assert KeptDir(pass, [] + dir[..k + 1]);
      }
    }
    if Comes(s, dotted, dir) {
      forall k | 1 <= k <= |dir| ensures KeptDir(pass, [] + dir[..k]) {
        assert Enters(s, dotted, dir, k - 1);
      }
    }
  }

  /** The file is in the tree, in a directory the file pass comes to. */
  ghost predicate Reachable(s: Settings, tree: Dir, file: seq<string>)
    requires s.root != ""
  {
    file != [] && Comes(s, true, file[..|file| - 1]) &&
    exists d :: DirAt(tree, file[..|file| - 1], d) && file[|file| - 1] in d.files
  }

  lemma {:induction false} FilesOfAreNamed(visited: seq<Visit>, file: seq<string>)
    requires file in FilesOf(visited)
    ensures file != []
  {
    if file !in FilePaths(visited[0].rel, visited[0].dir.files) {
      FilesOfAreNamed(visited[1..], file);
    }
  }

  lemma ReachedIffReachable(s: Settings, tree: Dir, file: seq<string>)
    requires s.root != ""
    ensures file in FilesReached(FilePass(s), tree) <==> Reachable(s, tree, file)
  {
    if file == [] {
      if file in FilesReached(FilePass(s), tree) {
        FilesOfAreNamed(Visited(FilePass(s), [], tree), file);
      }
    } else {
      var dir, name := file[..|file| - 1], file[|file| - 1];
      assert file == dir + [name];
      ReachedExactly(FilePass(s), tree, dir, name);
      OpenIffComes(s, true, dir);
    }
  }

  lemma {:induction false} SelectedExactly(filter: SecurityFilter, s: Settings, q: Query, files: seq<seq<string>>, hit: Hit)
    requires filter.Valid()
    ensures hit in Selected(filter, s, q, files) <==> exists file :: file in files && Result(filter, s, q, file) == Some(hit)
  {
    if files != [] {
      var last := |files| - 1;
      SelectedExactly(filter, s, q, files[..last], hit);
      assert forall file :: file in files <==> file in files[..last] || file == files[last];
    }
  }

  /** The text shown of a file's content, if any of it may be. */
  ghost predicate IsShownAs(filter: SecurityFilter, content: string, text: string)
    requires filter.Valid()
    reads filter
  {
    !filter.Blocks(content) &&
    text == if filter.Masks(content) then MaskedText(filter.sensitivePatterns, filter.maskPlaceholder, content)
            else content
  }

  /** The files of the answer, exactly: reached, fitting the pattern, permitted, not too large; and either the file
      could not be read and its name matches, or its content may be shown and the name matches, what is shown
      matches, or nothing is asked for. */
  lemma FileHitsExactly(filter: SecurityFilter, s: Settings, q: Query, tree: Dir, file: seq<string>, text: Option<string>)
    requires s.root != "" && filter.Valid()
    ensures File(file, text) in AllHits(filter, s, q, tree) <==>
            Reachable(s, tree, file) && q.patterned(file) && !q.oversized(file) &&
            filter.pathDenied(DirPath(s.root, file)).None? && filter.sensitiveFile(DirPath(s.root, file)).None? &&
            !filter.IgnoredFile(filter.Asked(DirPath(s.root, file), Some(Path(file)))) &&
            var named := q.named.Some? && q.named.value(file[|file| - 1]);
            match q.content(file)
            case None => text == None && named
            case Some(content) =>
              text.Some? && IsShownAs(filter, content, text.value) && (named || q.finds(text.value) || q.named.None?)
  {
    var files, hit := FilesReached(FilePass(s), tree), File(file, text);
    ReachedIffReachable(s, tree, file);
    SelectedExactly(filter, FilePass(s), q, files, hit);
    ResultIsOfFile(filter, FilePass(s), q, file, text);
    assert hit in AllHits(filter, s, q, tree) <==> hit in FileHits(filter, s, q, tree);
  }

  lemma ResultIsOfFile(filter: SecurityFilter, s: Settings, q: Query, file: seq<string>, text: Option<string>)
    requires filter.Valid()
    ensures forall f :: Result(filter, s, q, f) == Some(File(file, text)) ==> f == file
    ensures Result(filter, s, q, file) == Some(File(file, text)) <==>
            q.patterned(file) && Permitted(filter, s, file) && !q.oversized(file) &&
            match q.content(file)
            case None => text == None && NameMatches(q, file)
            case Some(content) =>
              text.Some? && IsShownAs(filter, content, text.value) &&
              (NameMatches(q, file) || q.finds(text.value) || q.named.None?)
  {
  }

  lemma FileHitIsReachable(filter: SecurityFilter, s: Settings, q: Query, tree: Dir, hit: Hit)
    requires s.root != "" && filter.Valid() && hit.File? && hit in AllHits(filter, s, q, tree)
    ensures Reachable(s, tree, hit.path)
  {
    FileHitsExactly(filter, s, q, tree, hit.path, hit.text);
  }

  /** No file of an answer lies below a directory whose name begins with a dot, or is one of those never entered. */
  lemma NothingFromClosedDirs(filter: SecurityFilter, s: Settings, q: Query, tree: Dir, n: int, hit: Hit, k: nat)
    requires s.root != "" && filter.Valid()
    requires hit in Capped(n, AllHits(filter, s, q, tree)) && hit.File? && k < |hit.path| - 1
    ensures !ClosedName(hit.path[k], true)
  {
    FileHitIsReachable(filter, s, q, tree, hit);
    var dir := hit.path[..|hit.path| - 1];
    assert Comes(s, true, dir) && Enters(s, true, dir, k);
  }

  // ---- folder hits ----

  /** Entry j is the first sub-directory that may be entered and whose name matches. */
  ghost predicate FirstMatch(s: Settings, named: string -> bool, dir: seq<string>, subs: seq<Entry>, j: int) {
    0 <= j < |subs| && Matching(s, named, dir, subs[j].name) &&
    forall i :: 0 <= i < j ==> !Matching(s, named, dir, subs[i].name)
  }

  ghost predicate Matching(s: Settings, named: string -> bool, dir: seq<string>, name: string) {
    !ClosedName(name, false) && !Ignored(s.rules, Path(dir + [name]), true, s.oracle) && named(name)
  }

  lemma KeptIffMatching(s: Settings, named: string -> bool, dir: seq<string>, name: string)
    ensures KeptDir(FolderPass(s), dir + [name]) && named(name) <==> Matching(s, named, dir, name)
  {
    ClosedNames(name);
  }

  lemma {:induction false} FirstNamedIsFirst(s: Settings, named: string -> bool, dir: seq<string>, subs: seq<Entry>)
    ensures FirstNamed(named, dir, KeptSubs(FolderPass(s), dir, subs)) == [] ||
            exists j :: FirstMatch(s, named, dir, subs, j) &&
                        FirstNamed(named, dir, KeptSubs(FolderPass(s), dir, subs)) == [dir + [subs[j].name]]
    ensures FirstNamed(named, dir, KeptSubs(FolderPass(s), dir, subs)) == [] ==>
            forall j :: 0 <= j < |subs| ==> !Matching(s, named, dir, subs[j].name)
  {
    if subs != [] {
      var rest := subs[1..];
      KeptSubsFirst(FolderPass(s), dir, subs);
      KeptIffMatching(s, named, dir, subs[0].name);
      FirstNamedIsFirst(s, named, dir, rest);
      var kept, more := KeptSubs(FolderPass(s), dir, subs), KeptSubs(FolderPass(s), dir, rest);
      if KeptDir(FolderPass(s), dir + [subs[0].name]) {
        assert kept[0] == subs[0] && kept[1..] == more;
      } else {
        assert kept == more;
      }
      if Matching(s, named, dir, subs[0].name) {
        assert FirstMatch(s, named, dir, subs, 0);
      } else if FirstNamed(named, dir, more) != [] {
        var j :| FirstMatch(s, named, dir, rest, j) && FirstNamed(named, dir, more) == [dir + [rest[j].name]];
        assert FirstMatch(s, named, dir, subs, j + 1);
      }
    }
  }

  lemma FirstNamedExactly(s: Settings, named: string -> bool, dir: seq<string>, subs: seq<Entry>, path: seq<string>)
    ensures path in FirstNamed(named, dir, KeptSubs(FolderPass(s), dir, subs)) <==>
            exists j :: FirstMatch(s, named, dir, subs, j) && path == dir + [subs[j].name]
  {
    FirstNamedIsFirst(s, named, dir, subs);
  }

  lemma {:induction false} DirMatchesExactly(s: Settings, named: string -> bool, visited: seq<Visit>, path: seq<string>)
    ensures path in DirMatches(FolderPass(s), named, visited) <==>
            exists v, j :: v in visited && FirstMatch(s, named, v.rel, v.dir.subs, j) && path == v.rel + [v.dir.subs[j].name]
  {
    if visited != [] {
      DirMatchesExactly(s, named, visited[1..], path);
      FirstNamedExactly(s, named, visited[0].rel, visited[0].dir.subs, path);
      assert forall v :: v in visited <==> v == visited[0] || v in visited[1..];
    }
  }

  /** The folders of the answer, exactly: of every directory the folder pass comes to, the first sub-directory that
      may be entered and whose name matches; none without a query. */
  lemma FolderHitsExactly(filter: SecurityFilter, s: Settings, q: Query, tree: Dir, path: seq<string>)
    requires s.root != "" && filter.Valid()
    ensures Folder(path) in AllHits(filter, s, q, tree) <==>
            q.named.Some? && path != [] && Comes(s, false, path[..|path| - 1]) &&
            exists d, j :: FirstMatchAt(s, q.named.value, tree, path, d, j)
  {
    var folders := FolderPaths(FolderPass(s), q.named, tree);
    FoldersMembers(folders, path);
    assert Folder(path) in AllHits(filter, s, q, tree) <==> path in folders by {
      NoFolderSelected(filter, FilePass(s), q, FilesReached(FilePass(s), tree), path);
    }
    if q.named.Some? {
      FolderPathsExactly(s, q.named.value, tree, path);
    }
  }

  /** Entry j of the directory d above the path is the first match, and is what the path names. */
  ghost predicate FirstMatchAt(s: Settings, named: string -> bool, tree: Dir, path: seq<string>, d: Dir, j: int)
    requires path != []
  {
    DirAt(tree, path[..|path| - 1], d) && FirstMatch(s, named, path[..|path| - 1], d.subs, j) &&
    d.subs[j].name == path[|path| - 1]
  }

  lemma VisitedIffComes(s: Settings, tree: Dir, dir: seq<string>, d: Dir)
    requires s.root != ""
    ensures Visit(dir, d) in Visited(FolderPass(s), [], tree) <==> DirAt(tree, dir, d) && Comes(s, false, dir)
  {
    OpenIffComes(s, false, dir);
    VisitedExactly(FolderPass(s), [], tree, dir, d);
    assert [] + dir == dir;
  }

  lemma FoundIsFirstMatch(s: Settings, named: string -> bool, tree: Dir, path: seq<string>)
    requires s.root != "" && path in DirMatches(FolderPass(s), named, Visited(FolderPass(s), [], tree))
    ensures path != [] && Comes(s, false, path[..|path| - 1]) && exists d, j :: FirstMatchAt(s, named, tree, path, d, j)
  {
    var visited := Visited(FolderPass(s), [], tree);
    DirMatchesExactly(s, named, visited, path);
    var v, j :| v in visited && FirstMatch(s, named, v.rel, v.dir.subs, j) && path == v.rel + [v.dir.subs[j].name];
    assert path[..|path| - 1] == v.rel && path[|path| - 1] == v.dir.subs[j].name;
    VisitedIffComes(s, tree, v.rel, v.dir);
    assert FirstMatchAt(s, named, tree, path, v.dir, j);
  }

  lemma FirstMatchIsFound(s: Settings, named: string -> bool, tree: Dir, path: seq<string>, d: Dir, j: int)
    requires s.root != "" && path != [] && Comes(s, false, path[..|path| - 1]) && FirstMatchAt(s, named, tree, path, d, j)
    ensures path in DirMatches(FolderPass(s), named, Visited(FolderPass(s), [], tree))
  {
    var visited, v := Visited(FolderPass(s), [], tree), Visit(path[..|path| - 1], d);
    VisitedIffComes(s, tree, v.rel, d);
    MatchIsListed(s, named, visited, v, j);
    assert path == v.rel + [v.dir.subs[j].name];
  }

  lemma MatchIsListed(s: Settings, named: string -> bool, visited: seq<Visit>, v: Visit, j: int)
    requires v in visited && FirstMatch(s, named, v.rel, v.dir.subs, j)
    ensures v.rel + [v.dir.subs[j].name] in DirMatches(FolderPass(s), named, visited)
  {
    DirMatchesExactly(s, named, visited, v.rel + [v.dir.subs[j].name]);
  }

  lemma FolderPathsExactly(s: Settings, named: string -> bool, tree: Dir, path: seq<string>)
    requires s.root != ""
    ensures path in DirMatches(FolderPass(s), named, Visited(FolderPass(s), [], tree)) <==>
            path != [] && Comes(s, false, path[..|path| - 1]) && exists d, j :: FirstMatchAt(s, named, tree, path, d, j)
  {
    if path in DirMatches(FolderPass(s), named, Visited(FolderPass(s), [], tree)) {
      FoundIsFirstMatch(s, named, tree, path);
    }
    if path != [] && Comes(s, false, path[..|path| - 1]) && exists d, j :: FirstMatchAt(s, named, tree, path, d, j) {
      var d, j :| FirstMatchAt(s, named, tree, path, d, j);
      FirstMatchIsFound(s, named, tree, path, d, j);
    }
  }

  lemma FoldersMembers(paths: seq<seq<string>>, path: seq<string>)
    ensures Folder(path) in Folders(paths) <==> path in paths
  {
    if path in paths {
      var k :| 0 <= k < |paths| && paths[k] == path;
      assert Folders(paths)[k] == Folder(path);
    }
  }

  lemma {:induction false} NoFolderSelected(filter: SecurityFilter, s: Settings, q: Query, files: seq<seq<string>>, path: seq<string>)
    requires filter.Valid()
    ensures Folder(path) !in Selected(filter, s, q, files)
  {
    SelectedExactly(filter, s, q, files, Folder(path));
  }
}
