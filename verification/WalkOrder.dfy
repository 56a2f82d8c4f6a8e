/** The order in which the walk comes to files, and that it comes to none twice. */
module WalkOrder {
  import opened Sequences
  import opened IgnoreRules
  import opened PrunedWalk
  import opened FileSearch

  /** A directory's own files come before all that lies below it. */
  lemma WalkTopDown(s: Settings, rel: seq<string>, d: Dir)
    requires s.root != "" && Depth(s.root, rel) <= s.maxDepth
    ensures FilesOf(Visited(s, rel, d)) == FilePaths(rel, d.files) + FilesOf(VisitedSubs(s, rel, d.subs))
  {
    FilesOfConcat([Visit(rel, d)], VisitedSubs(s, rel, d.subs));
    assert [Visit(rel, d)][1..] == [];
  }

  /** What lies below the sub-directories listed first comes first. */
  lemma {:induction false} WalkInListingOrder(s: Settings, rel: seq<string>, a: seq<Entry>, b: seq<Entry>)
    requires s.root != ""
    ensures FilesOf(VisitedSubs(s, rel, a + b)) == FilesOf(VisitedSubs(s, rel, a)) + FilesOf(VisitedSubs(s, rel, b))
  {
    if a == [] {
      assert a + b == b;
    } else {
      WalkInListingOrder(s, rel, a[1..], b);
      HeadAndTail(a, b);
      var below := rel + [a[0].name];
      var first := if KeptDir(s, below) then Visited(s, below, a[0].dir) else [];
      FilesOfConcat(first, VisitedSubs(s, rel, a[1..] + b));
      FilesOfConcat(first, VisitedSubs(s, rel, a[1..]));
      Regroup(FilesOf(first), FilesOf(VisitedSubs(s, rel, a[1..])), FilesOf(VisitedSubs(s, rel, b)));
    }
  }

  ghost predicate Distinct<T(!new)>(xs: seq<T>) {
    forall i, j :: 0 <= i < j < |xs| ==> xs[i] != xs[j]
  }

  ghost predicate ProperSubs(subs: seq<Entry>)
    decreases subs, 0
  {
    (forall i, j :: 0 <= i < j < |subs| ==> subs[i].name != subs[j].name) &&
    forall k :: 0 <= k < |subs| ==> Proper(subs[k].dir)
  }

  /** No directory lists a name twice. */
  ghost predicate Proper(d: Dir)
    decreases d, 1
  {
    Distinct(d.files) && ProperSubs(d.subs)
  }

  lemma DistinctConcat<T(!new)>(a: seq<T>, b: seq<T>)
    requires Distinct(a) && Distinct(b) && forall x :: x in a ==> x !in b
    ensures Distinct(a + b)
  {
    forall i, j | 0 <= i < j < |a + b| ensures (a + b)[i] != (a + b)[j] {
      if i < |a| {
        assert (a + b)[i] in a;
        assert j >= |a| ==> (a + b)[j] in b;
      }
    }
  }

  lemma {:induction false} FilesBelow(s: Settings, rel: seq<string>, d: Dir, file: seq<string>)
    requires s.root != "" && file in FilesOf(Visited(s, rel, d))
    ensures rel < file
    decreases d, 1
  {
    WalkTopDown(s, rel, d);
    if file !in FilePaths(rel, d.files) {
      FilesBelowSubs(s, rel, d.subs, file);
    }
  }

  /** What lies below the first sub-directory, then what lies below the others. */
  ghost function BelowFirst(s: Settings, rel: seq<string>, subs: seq<Entry>): seq<seq<string>>
    requires s.root != "" && subs != []
  {
    var below := rel + [subs[0].name];
    FilesOf(if KeptDir(s, below) then Visited(s, below, subs[0].dir) else [])
  }

  lemma SubsInTwo(s: Settings, rel: seq<string>, subs: seq<Entry>)
    requires s.root != "" && subs != []
    ensures FilesOf(VisitedSubs(s, rel, subs)) == BelowFirst(s, rel, subs) + FilesOf(VisitedSubs(s, rel, subs[1..]))
  {
    var below := rel + [subs[0].name];
    FilesOfConcat(if KeptDir(s, below) then Visited(s, below, subs[0].dir) else [], VisitedSubs(s, rel, subs[1..]));
  }

  lemma LongerPath(rel: seq<string>, name: string, file: seq<string>)
    requires rel + [name] < file
    ensures rel < file && |file| >= |rel| + 2 && file[|rel|] == name
  {
    assert (rel + [name])[|rel|] == name;
    assert rel == (rel + [name])[..|rel|];
  }

  lemma {:induction false} FilesBelowSubs(s: Settings, rel: seq<string>, subs: seq<Entry>, file: seq<string>)
    requires s.root != "" && file in FilesOf(VisitedSubs(s, rel, subs))
    ensures rel < file && |file| >= |rel| + 2
    ensures exists j :: 0 <= j < |subs| && subs[j].name == file[|rel|]
    decreases subs, 0
  {
    SubsInTwo(s, rel, subs);
    if file in BelowFirst(s, rel, subs) {
      FilesBelow(s, rel + [subs[0].name], subs[0].dir, file);
      LongerPath(rel, subs[0].name, file);
    } else {
      FilesBelowSubs(s, rel, subs[1..], file);
      var j :| 0 <= j < |subs[1..]| && subs[1..][j].name == file[|rel|];
      assert subs[j + 1] == subs[1..][j];
    }
  }

  lemma {:induction false} DistinctBelow(s: Settings, rel: seq<string>, d: Dir)
    requires s.root != "" && Proper(d)
    ensures Distinct(FilesOf(Visited(s, rel, d)))
    decreases d, 1
  {
    if Depth(s.root, rel) <= s.maxDepth {
      WalkTopDown(s, rel, d);
      DistinctSubs(s, rel, d.subs);
      forall file | file in FilePaths(rel, d.files) ensures file !in FilesOf(VisitedSubs(s, rel, d.subs)) {
        if file in FilesOf(VisitedSubs(s, rel, d.subs)) {
          FilesBelowSubs(s, rel, d.subs, file);
        }
      }
      DistinctPaths(rel, d.files);
      DistinctConcat(FilePaths(rel, d.files), FilesOf(VisitedSubs(s, rel, d.subs)));
    }
  }

  lemma DistinctPaths(rel: seq<string>, files: seq<string>)
    requires Distinct(files)
    ensures Distinct(FilePaths(rel, files))
  {
    var paths := FilePaths(rel, files);
    forall i, j | 0 <= i < j < |paths| ensures paths[i] != paths[j] {
      assert paths[i][|rel|] == files[i] && paths[j][|rel|] == files[j];
    }
  }

  lemma OtherSubs(s: Settings, rel: seq<string>, subs: seq<Entry>, file: seq<string>)
    requires s.root != "" && subs != [] && ProperSubs(subs) && file in BelowFirst(s, rel, subs)
    ensures file !in FilesOf(VisitedSubs(s, rel, subs[1..]))
  {
    FilesBelow(s, rel + [subs[0].name], subs[0].dir, file);
    LongerPath(rel, subs[0].name, file);
    if file in FilesOf(VisitedSubs(s, rel, subs[1..])) {
      FilesBelowSubs(s, rel, subs[1..], file);
    }
  }

  lemma ProperRest(subs: seq<Entry>)
    requires subs != [] && ProperSubs(subs)
    ensures Proper(subs[0].dir) && ProperSubs(subs[1..])
  {
    forall k | 0 <= k < |subs[1..]| ensures subs[1..][k] == subs[k + 1] {}
  }

  lemma {:induction false} DistinctSubs(s: Settings, rel: seq<string>, subs: seq<Entry>)
    requires s.root != "" && ProperSubs(subs)
    ensures Distinct(FilesOf(VisitedSubs(s, rel, subs)))
    decreases subs, 0
  {
    if subs != [] {
      ProperRest(subs);
      SubsInTwo(s, rel, subs);
      DistinctBelow(s, rel + [subs[0].name], subs[0].dir);
      DistinctSubs(s, rel, subs[1..]);
      forall file | file in BelowFirst(s, rel, subs) ensures file !in FilesOf(VisitedSubs(s, rel, subs[1..])) {
        OtherSubs(s, rel, subs, file);
      }
      DistinctConcat(BelowFirst(s, rel, subs), FilesOf(VisitedSubs(s, rel, subs[1..])));
    }
  }

  /** Over a tree in which no directory lists a name twice, no file is reached twice. */
  lemma NoFileTwice(s: Settings, tree: Dir)
    requires s.root != "" && Proper(tree)
    ensures Distinct(FilesReached(s, tree))
  {
    DistinctBelow(s, [], tree);
  }
}
