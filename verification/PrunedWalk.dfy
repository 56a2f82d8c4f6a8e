/** The file-system search: a top-down walk that prunes directories as it goes and stops
    collecting at a cap.

    A directory tree is a value; `os.walk` hands its directories out parents first, and the
    loop removes sub-directories from the list it is about to descend into. */
module PrunedWalk {
  import opened RegexText
  import opened IgnoreRules

  datatype Dir = Dir(subs: seq<Entry>, files: seq<string>)
  datatype Entry = Entry(name: string, dir: Dir)

  /** A directory handed out by the walk: its path below the root, and what is in it. */
  datatype Visit = Visit(rel: seq<string>, dir: Dir)

  /** What the walk consults; dotted says whether dot-named directories are pruned too. */
  datatype Settings = Settings(
    root: string, maxDepth: int, rules: seq<IgnoreRule>, oracle: ClassOracle, skip: set<string>, dotted: bool)

  const SKIP_DIRS := {".git", "__pycache__", "node_modules", ".venv", "venv", "dist",
                      "build", ".next", ".vscode", ".idea", "target", ".tox", ".eggs"}

  // ---- depth, computed on the path text ----

  /** `s.replace(part, "")`: every occurrence from the left goes, not only the first. */
  function Without(s: string, part: string): string
    requires part != ""
    decreases |s|
  {
    if s == "" then "" else if part <= s then Without(s[|part|..], part) else [s[0]] + Without(s[1..], part)
  }

  function Occurrences(s: string, part: string): nat
    requires part != ""
    decreases |s|
  {
    if s == "" then 0 else if part <= s then 1 + Occurrences(s[|part|..], part) else Occurrences(s[1..], part)
  }

  function Slashes(s: string): nat {
    if s == "" then 0 else (if s[0] == '/' then 1 else 0) + Slashes(s[1..])
  }

  predicate EndsInSeparator(s: string) {
    s != "" && s[|s| - 1] == '/'
  }

  /** `os.path.join` of a directory path and a name below it. */
  function Join(dir: string, name: string): string {
    if EndsInSeparator(dir) then dir + name else dir + "/" + name
  }

  function DirPath(root: string, rel: seq<string>): string {
    if rel == [] then root else Join(DirPath(root, rel[..|rel| - 1]), rel[|rel| - 1])
  }

  /** The depth the loop computes for the directory at rel. */
  function Depth(root: string, rel: seq<string>): nat
    requires root != ""
  {
    Slashes(Without(DirPath(root, rel), root))
  }

  /** What the path of rel adds to the root. */
  function Tail(root: string, rel: seq<string>): string {
    if rel == [] then ""
    else
      var init := rel[..|rel| - 1];
      Tail(root, init) + (if EndsInSeparator(DirPath(root, init)) then "" else "/") + rel[|rel| - 1]
  }

  ghost predicate Names(rel: seq<string>) {
    forall name :: name in rel ==> name != "" && '/' !in name
  }

  lemma {:induction false} SlashesConcat(a: string, b: string)
    ensures Slashes(a + b) == Slashes(a) + Slashes(b)
  {
    if a == "" {
      assert a + b == b;
    } else {
      SlashesConcat(a[1..], b);
      assert (a + b)[1..] == a[1..] + b;
    }
  }

  lemma {:induction false} NoSlashes(s: string)
    requires '/' !in s
    ensures Slashes(s) == 0
  {
    if s != "" {
      NoSlashes(s[1..]);
    }
  }

  lemma {:induction false} WithoutSlashes(s: string, part: string)
    requires part != ""
    ensures Slashes(Without(s, part)) == Slashes(s) - Occurrences(s, part) * Slashes(part)
    decreases |s|
  {
    if s == "" {
    } else if part <= s {
      WithoutSlashes(s[|part|..], part);
      assert s == part + s[|part|..];
      SlashesConcat(part, s[|part|..]);
      Distribute(Occurrences(s[|part|..], part), Slashes(part));
    } else {
      WithoutSlashes(s[1..], part);
      assert ([s[0]] + Without(s[1..], part))[1..] == Without(s[1..], part);
    }
  }

  lemma Distribute(n: int, c: int)
    ensures (1 + n) * c == c + n * c
  {
  }

  lemma {:induction false} PathIsRootAndTail(root: string, rel: seq<string>)
    requires Names(rel)
    ensures DirPath(root, rel) == root + Tail(root, rel)
    ensures rel != [] ==> !EndsInSeparator(DirPath(root, rel))
    ensures Slashes(Tail(root, rel)) == if rel != [] && EndsInSeparator(root) then |rel| - 1 else |rel|
    decreases |rel|
  {
    if rel != [] {
      var init, last := rel[..|rel| - 1], rel[|rel| - 1];
      assert last in rel && forall name :: name in init ==> name in rel;
      PathIsRootAndTail(root, init);
      var sep := if EndsInSeparator(DirPath(root, init)) then "" else "/";
      NoSlashes(last);
      SlashesConcat(Tail(root, init) + sep, last);
      SlashesConcat(Tail(root, init), sep);
      assert Slashes("/") == 1 by { assert "/"[1..] == ""; }
      var path := DirPath(root, rel);
      assert path == DirPath(root, init) + sep + last;
      assert path[|path| - 1] == last[|last| - 1];
    }
  }

  /** The computed depth is the number of separators below the root, less those that go with every further
      occurrence of the root's own text. */
  lemma DepthFormula(root: string, rel: seq<string>)
    requires root != "" && Names(rel)
    ensures Depth(root, rel) ==
            Slashes(Tail(root, rel)) - Occurrences(Tail(root, rel), root) * Slashes(root)
  {
    var path, tail := DirPath(root, rel), Tail(root, rel);
    PathIsRootAndTail(root, rel);
    assert path[|root|..] == tail;
    WithoutSlashes(tail, root);
    assert Without(path, root) == Without(tail, root);
  }

  /** The computed depth is the true one exactly when the root does not end in a separator and either
      holds none or does not occur again below itself. */
  lemma DepthIsTrueIff(root: string, rel: seq<string>)
    requires root != "" && Names(rel)
    ensures Depth(root, rel) == |rel| <==>
            rel == [] || (!EndsInSeparator(root) && (Slashes(root) == 0 || Occurrences(Tail(root, rel), root) == 0))
    ensures Depth(root, rel) <= |rel|
  {
    DepthFormula(root, rel);
    PathIsRootAndTail(root, rel);
    var n, c := Occurrences(Tail(root, rel), root), Slashes(root);
    ProductOfNats(n, c);
  }

  lemma ProductOfNats(n: nat, c: nat)
    ensures n * c >= 0 && (n * c == 0 <==> n == 0 || c == 0)
  {
  }

  /** Two levels below the root `/a`, a path that repeats the root counts as no depth at all. */
  lemma RepeatedRootHidesDepth()
    ensures Depth("/a", ["a", "a"]) == 0
  {
    assert ["a", "a"][..1] == ["a"];
    assert Tail("/a", ["a"]) == "/a" && DirPath("/a", ["a"]) == "/a/a";
    assert Tail("/a", ["a", "a"]) == "/a/a";
    TwiceA();
    DepthFormula("/a", ["a", "a"]);
  }

  lemma TwiceA()
    ensures Occurrences("/a/a", "/a") == 2 && Slashes("/a/a") == 2 && Slashes("/a") == 1
  {
    assert "/a/a"[2..] == "/a" && "/a"[2..] == "";
    assert "/a/a" == "/a" + "/a";
    SlashesConcat("/a", "/a");
    SlashesOfA();
  }

  lemma SlashesOfA()
    ensures Slashes("/a") == 1
  {
    assert "/a"[1..] == "a" && "a"[1..] == "";
  }

  // ---- the walk ----

  ghost predicate KeptDir(s: Settings, rel: seq<string>)
    requires rel != []
  {
    var name := rel[|rel| - 1];
    name !in s.skip && !(s.dotted && name != "" && name[0] == '.') && !Ignored(s.rules, Path(rel), true, s.oracle)
  }

  /** The directories whose entries the loop looks at, parents first. */
  ghost function Visited(s: Settings, rel: seq<string>, d: Dir): seq<Visit>
    requires s.root != ""
    decreases d, 1
  {
    if Depth(s.root, rel) > s.maxDepth then [] else [Visit(rel, d)] + VisitedSubs(s, rel, d.subs)
  }

  ghost function VisitedSubs(s: Settings, rel: seq<string>, subs: seq<Entry>): seq<Visit>
    requires s.root != ""
    decreases subs, 0
  {
    if subs == [] then []
    else
      var below := rel + [subs[0].name];
      (if KeptDir(s, below) then Visited(s, below, subs[0].dir) else []) + VisitedSubs(s, rel, subs[1..])
  }

  function FilePaths(rel: seq<string>, files: seq<string>): (r: seq<seq<string>>)
    ensures |r| == |files| && forall k :: 0 <= k < |files| ==> r[k] == rel + [files[k]]
  {
    seq(|files|, k requires 0 <= k < |files| => rel + [files[k]])
  }

  function FilesOf(visited: seq<Visit>): seq<seq<string>> {
    if visited == [] then []
    else FilePaths(visited[0].rel, visited[0].dir.files) + FilesOf(visited[1..])
  }

  /** Every file the walk comes to, in the order it comes to them. */
  ghost function FilesReached(s: Settings, tree: Dir): seq<seq<string>>
    requires s.root != ""
  {
    FilesOf(Visited(s, [], tree))
  }

  // ---- exactly which files are reached ----

  ghost predicate DirAt(d: Dir, path: seq<string>, target: Dir)
    decreases |path|
  {
    if path == [] then d == target
    else exists k :: 0 <= k < |d.subs| && d.subs[k].name == path[0] && DirAt(d.subs[k].dir, path[1..], target)
  }

  /** Every directory on the way down to rel + path, ends included, is shallow enough, and every one
      below rel is kept. */
  ghost predicate OpenTo(s: Settings, rel: seq<string>, path: seq<string>)
    requires s.root != ""
  {
    (forall k :: 0 <= k <= |path| ==> Depth(s.root, rel + path[..k]) <= s.maxDepth) &&
    (forall k :: 1 <= k <= |path| ==> KeptDir(s, rel + path[..k]))
  }

  lemma OpenToFirst(s: Settings, rel: seq<string>, path: seq<string>)
    requires s.root != "" && path != []
    ensures OpenTo(s, rel, path) <==>
            Depth(s.root, rel) <= s.maxDepth && KeptDir(s, rel + [path[0]]) && OpenTo(s, rel + [path[0]], path[1..])
  {
    var below := rel + [path[0]];
    assert rel + path[..0] == rel && rel + path[..1] == below;
    forall k | 1 <= k <= |path| ensures rel + path[..k] == below + path[1..][..k - 1] {}
    if OpenTo(s, below, path[1..]) && Depth(s.root, rel) <= s.maxDepth && KeptDir(s, below) {
      forall k | 1 <= k <= |path| ensures Depth(s.root, rel + path[..k]) <= s.maxDepth && KeptDir(s, rel + path[..k]) {
        assert rel + path[..k] == below + path[1..][..k - 1];
      }
    }
    if OpenTo(s, rel, path) {
      forall k | 0 <= k <= |path[1..]|
        ensures Depth(s.root, below + path[1..][..k]) <= s.maxDepth && (k >= 1 ==> KeptDir(s, below + path[1..][..k]))
      {
        assert below + path[1..][..k] == rel + path[..k + 1];
      }
    }
  }

  /** The way down starts with one of the given sub-directories, and stays open. */
  ghost predicate BelowSubs(s: Settings, rel: seq<string>, subs: seq<Entry>, path: seq<string>, target: Dir)
    requires s.root != ""
  {
    path != [] && KeptDir(s, rel + [path[0]]) && OpenTo(s, rel + [path[0]], path[1..]) &&
    exists k :: 0 <= k < |subs| && subs[k].name == path[0] && DirAt(subs[k].dir, path[1..], target)
  }

  lemma {:induction false} VisitedIsBelow(s: Settings, rel: seq<string>, d: Dir)
    requires s.root != ""
    ensures forall v :: v in Visited(s, rel, d) ==> rel <= v.rel
    decreases d, 1
  {
    VisitedSubsIsBelow(s, rel, d.subs);
  }

  lemma {:induction false} VisitedSubsIsBelow(s: Settings, rel: seq<string>, subs: seq<Entry>)
    requires s.root != ""
    ensures forall v :: v in VisitedSubs(s, rel, subs) ==> rel < v.rel
    decreases subs, 0
  {
    if subs != [] {
      VisitedIsBelow(s, rel + [subs[0].name], subs[0].dir);
      VisitedSubsIsBelow(s, rel, subs[1..]);
    }
  }

  /** Visited directories are those of the tree with an open way down to them. */
  lemma {:induction false} VisitedExactly(s: Settings, rel: seq<string>, d: Dir, path: seq<string>, target: Dir)
    requires s.root != ""
    ensures Visit(rel + path, target) in Visited(s, rel, d) <==> DirAt(d, path, target) && OpenTo(s, rel, path)
    decreases d, 1
  {
    VisitedSubsExactly(s, rel, d.subs, path, target);
    assert rel + path[..0] == rel;
    if path == [] {
      VisitedSubsIsBelow(s, rel, d.subs);
    } else {
      OpenToFirst(s, rel, path);
      assert |rel + path| > |rel|;
    }
  }

  lemma {:induction false} VisitedSubsExactly(
      s: Settings, rel: seq<string>, subs: seq<Entry>, path: seq<string>, target: Dir)
    requires s.root != ""
    ensures Visit(rel + path, target) in VisitedSubs(s, rel, subs) <==> BelowSubs(s, rel, subs, path, target)
    decreases subs, 0
  {
    if subs != [] {
      var below, rest := rel + [subs[0].name], subs[1..];
      VisitedSubsExactly(s, rel, rest, path, target);
      BelowSubsFirst(s, rel, subs, path, target);
      if path != [] && path[0] == subs[0].name {
        assert rel + path == below + path[1..];
        VisitedExactly(s, below, subs[0].dir, path[1..], target);
      } else {
        VisitedIsBelow(s, below, subs[0].dir);
        NotBelow(rel, subs[0].name, path);
      }
    }
  }

  lemma NotBelow(rel: seq<string>, name: string, path: seq<string>)
    requires path == [] || path[0] != name
    ensures !(rel + [name] <= rel + path)
  {
    assert (rel + [name])[|rel|] == name;
    assert path != [] ==> (rel + path)[|rel|] == path[0];
  }

  lemma BelowSubsFirst(s: Settings, rel: seq<string>, subs: seq<Entry>, path: seq<string>, target: Dir)
    requires s.root != "" && subs != []
    ensures BelowSubs(s, rel, subs, path, target) <==>
            BelowSubs(s, rel, subs[1..], path, target) ||
            (path != [] && KeptDir(s, rel + [path[0]]) && OpenTo(s, rel + [path[0]], path[1..]) &&
             subs[0].name == path[0] && DirAt(subs[0].dir, path[1..], target))
  {
    assert forall k :: 0 < k < |subs| ==> subs[k] == subs[1..][k - 1];
  }

  lemma {:induction false} FilesOfMembers(visited: seq<Visit>, dir: seq<string>, name: string)
    ensures dir + [name] in FilesOf(visited) <==> exists d :: Visit(dir, d) in visited && name in d.files
  {
    if visited != [] {
      var v := visited[0];
      FilesOfMembers(visited[1..], dir, name);
      if v.rel == dir {
        assert v == Visit(dir, v.dir);
        if name in v.dir.files {
          var k :| 0 <= k < |v.dir.files| && v.dir.files[k] == name;
          assert FilePaths(v.rel, v.dir.files)[k] == dir + [name];
        }
      }
      forall k | 0 <= k < |v.dir.files| && v.rel + [v.dir.files[k]] == dir + [name]
        ensures v.rel == dir && v.dir.files[k] == name
      {
        SameLast(v.rel, v.dir.files[k], dir, name);
      }
      assert forall d :: Visit(dir, d) in visited <==> Visit(dir, d) == v || Visit(dir, d) in visited[1..];
    }
  }

  lemma SameLast(a: seq<string>, x: string, b: seq<string>, y: string)
    requires a + [x] == b + [y]
    ensures a == b && x == y
  {
    assert (a + [x])[..|a|] == a && (b + [y])[..|b|] == b && |a| == |b|;
    assert (a + [x])[|a|] == x;
  }

  /** Exactness: a file is reached iff it is in the tree and every directory above it, up to the root, is
      within the depth limit and below the root neither skipped, dot-named nor ignored as a directory. */
  lemma ReachedExactly(s: Settings, tree: Dir, dir: seq<string>, name: string)
    requires s.root != ""
    ensures dir + [name] in FilesReached(s, tree) <==>
            OpenTo(s, [], dir) && exists d :: DirAt(tree, dir, d) && name in d.files
  {
    FilesOfMembers(Visited(s, [], tree), dir, name);
    assert [] + dir == dir;
    forall d ensures Visit(dir, d) in Visited(s, [], tree) <==> DirAt(tree, dir, d) && OpenTo(s, [], dir) {
      VisitedExactly(s, [], tree, dir, d);
    }
  }

  /** No rule brings a file back below an ignored directory, not even one that un-ignores the file itself. */
  lemma NoReturnBelowPruned(s: Settings, tree: Dir, dir: seq<string>, name: string, k: nat)
    requires s.root != "" && 1 <= k <= |dir| && Ignored(s.rules, Path(dir[..k]), true, s.oracle)
    ensures dir + [name] !in FilesReached(s, tree)
  {
    ReachedExactly(s, tree, dir, name);
    ClosedAt(s, dir, k);
  }

  lemma ClosedAt(s: Settings, dir: seq<string>, k: nat)
    requires s.root != "" && 1 <= k <= |dir| && Ignored(s.rules, Path(dir[..k]), true, s.oracle)
    ensures !OpenTo(s, [], dir)
  {
    assert [] + dir[..k] == dir[..k];
    assert !KeptDir(s, [] + dir[..k]);
  }
}
