/** `IgnoreRule._glob_to_regex`: ignore globs compiled to pattern text, piece by piece.

    Two readings of a glob meet here. GlobMatch says directly which paths a glob
    stands for. The compiler emits text, and RegexText says what Python makes of
    that text. The main results say that the text reads back as the intended
    items exactly when every bracket class closes where the glob scanner thought
    it did, and that the items accept exactly the paths of GlobMatch. */
module IgnoreGlob {
  import opened Sequences
  import opened Wrappers
  import opened RegexText

  datatype Piece = DoubleStar | Star | One | Set(body: string) | Char(c: char)

  // ---- what a glob means ----

  function Find(s: string, c: char, from: nat): (r: Option<nat>)
    ensures r.Some? ==> from <= r.value < |s| && s[r.value] == c && c !in s[from..r.value]
    ensures r.None? && from <= |s| ==> c !in s[from..]
    decreases |s| - from
  {
    if from >= |s| then None
    else if s[from] == c then Some(from)
    else Find(s, c, from + 1)
  }

  /** The paths a glob stands for, said of the pattern itself. */
  ghost predicate GlobMatch(p: string, s: string, oracle: ClassOracle)
    decreases |p|
  {
    if p == "" then s == ""
    else if p[0] == '*' && |p| > 1 && p[1] == '*' then
      var rest := if |p| > 2 && p[2] == '/' then p[3..] else p[2..];
      exists k :: 0 <= k <= |s| && '\n' !in s[..k] && GlobMatch(rest, s[k..], oracle)
    else if p[0] == '*' then
      exists k :: 0 <= k <= |s| && '/' !in s[..k] && GlobMatch(p[1..], s[k..], oracle)
    else if p[0] == '?' then
      s != "" && s[0] != '/' && GlobMatch(p[1..], s[1..], oracle)
    else if p[0] == '[' && Find(p, ']', 0).Some? then
      var end := Find(p, ']', 0).value;
      s != "" && AtomAccepts(Class(p[1..end]), s[0], oracle) && GlobMatch(p[end + 1..], s[1..], oracle)
    else
      s != "" && s[0] == p[0] && GlobMatch(p[1..], s[1..], oracle)
  }

  lemma LoneStar(s: string, oracle: ClassOracle)
    ensures GlobMatch("*", s, oracle) <==> '/' !in s
  {
    assert "*"[1..] == "";
    forall k | 0 <= k <= |s| ensures GlobMatch("", s[k..], oracle) <==> k == |s| {}
    assert s[..|s|] == s;
  }

  lemma LoneDoubleStar(p: string, s: string, oracle: ClassOracle)
    requires p == "**" || p == "**/"
    ensures GlobMatch(p, s, oracle) <==> '\n' !in s
  {
    assert (if |p| > 2 && p[2] == '/' then p[3..] else p[2..]) == "";
    forall k | 0 <= k <= |s| ensures GlobMatch("", s[k..], oracle) <==> k == |s| {}
    assert s[..|s|] == s;
  }

  lemma LoneCharacter(s: string, c: char, oracle: ClassOracle)
    requires c != '*'
    ensures GlobMatch([c], s, oracle) <==> |s| == 1 && if c == '?' then s[0] != '/' else s[0] == c
  {
    assert [c][1..] == "";
    assert Find([c], ']', 0).Some? ==> c == ']';
    assert s != "" ==> (GlobMatch("", s[1..], oracle) <==> |s| == 1);
  }

  /** What single wildcards stand for: `?` one character but no slash, `*` a name or a part of one, `**` a path or a
      part of one with a slash after it taken along, and any other character itself. */
  lemma SingleGlobs(s: string, c: char, oracle: ClassOracle)
    ensures GlobMatch("?", s, oracle) <==> |s| == 1 && s[0] != '/'
    ensures GlobMatch("*", s, oracle) <==> '/' !in s
    ensures GlobMatch("**", s, oracle) <==> '\n' !in s
    ensures GlobMatch("**/", s, oracle) <==> '\n' !in s
    ensures c != '*' && c != '?' ==> (GlobMatch([c], s, oracle) <==> |s| == 1 && s[0] == c)
  {
    LoneCharacter(s, '?', oracle);
    LoneStar(s, oracle);
    LoneDoubleStar("**", s, oracle);
    LoneDoubleStar("**/", s, oracle);
    if c != '*' {
      LoneCharacter(s, c, oracle);
    }
  }

  // ---- the compiler ----

  /** The first piece of a non-empty glob and the glob after it. */
  function Cut(p: string): (r: (Piece, string))
    requires p != ""
    ensures |r.1| < |p| && r.1 == p[|p| - |r.1|..]
  {
    if p[0] == '*' && |p| > 1 && p[1] == '*' then
      (DoubleStar, if |p| > 2 && p[2] == '/' then p[3..] else p[2..])
    else if p[0] == '*' then (Star, p[1..])
    else if p[0] == '?' then (One, p[1..])
    else if p[0] == '[' && Find(p, ']', 0).Some? then
      var end := Find(p, ']', 0).value;
      (Set(p[1..end]), p[end + 1..])
    else (Char(p[0]), p[1..])
  }

  /** The pieces a left-to-right scan of the glob cuts it into. */
  function Pieces(p: string): seq<Piece>
    decreases |p|
  {
    if p == "" then [] else [Cut(p).0] + Pieces(Cut(p).1)
  }

  function Fragment(piece: Piece): string {
    match piece
    case DoubleStar => ".*"
    case Star => "[^/]*"
    case One => "[^/]"
    case Set(body) => "[" + body + "]"
    case Char(c) => if IsSpecial(c) || c == '[' then ['\\', c] else [c]
  }

  function Emit(pieces: seq<Piece>): string {
    if pieces == [] then "" else Fragment(pieces[0]) + Emit(pieces[1..])
  }

  function Joined(parts: seq<string>): string {
    if parts == [] then "" else parts[0] + Joined(parts[1..])
  }

  function PatternText(p: string): string {
    "^" + Emit(Pieces(p)) + "$"
  }

  lemma {:induction false} JoinedAppend(parts: seq<string>, last: string)
    ensures Joined(parts + [last]) == Joined(parts) + last
  {
    if parts == [] {
      assert parts + [last] == [last];
      assert Joined([last][1..]) == "";
    } else {
      JoinedAppend(parts[1..], last);
      assert (parts + [last])[1..] == parts[1..] + [last];
    }
  }

  lemma {:induction false} FindInSuffix(s: string, c: char, from: nat, k: nat)
    requires from + k <= |s|
    ensures var r := Find(s[from..], c, k);
            Find(s, c, from + k) == if r.Some? then Some(from + r.value) else None
    decreases |s| - k
  {
    if from + k < |s| && s[from + k] != c {
      FindInSuffix(s, c, from, k + 1);
    }
  }

  /** The piece cut at index i of the glob, and the index the scan goes on from. */
  lemma CutAt(pat: string, i: nat)
    requires i < |pat|
    ensures var two := i + 1 < |pat| && pat[i + 1] == '*';
            var end := Find(pat, ']', i);
            Cut(pat[i..]) ==
            if pat[i] == '*' && two then (DoubleStar, pat[if i + 2 < |pat| && pat[i + 2] == '/' then i + 3 else i + 2..])
            else if pat[i] == '*' then (Star, pat[i + 1..])
            else if pat[i] == '?' then (One, pat[i + 1..])
            else if pat[i] == '[' && end.Some? then (Set(pat[i + 1..end.value]), pat[end.value + 1..])
            else (Char(pat[i]), pat[i + 1..])
  {
    var p := pat[i..];
    FindInSuffix(pat, ']', i, 0);
    assert i + 1 < |pat| ==> p[1] == pat[i + 1];
    assert i + 2 < |pat| ==> p[2] == pat[i + 2];
    if Find(p, ']', 0).Some? {
      var end := Find(p, ']', 0).value;
      assert p[end + 1..] == pat[i + end + 1..];
      assert end >= 1 ==> p[1..end] == pat[i + 1..i + end];
    }
  }

  lemma ScanStep(parts: seq<string>, part: string, unread: string, whole: string)
    requires unread != "" && part == Fragment(Cut(unread).0)
    requires Joined(parts) + Emit(Pieces(unread)) == whole
    ensures Joined(parts + [part]) + Emit(Pieces(Cut(unread).1)) == whole
  {
    FragmentComesFirst(unread);
    JoinedAppend(parts, part);
    Regroup(Joined(parts), part, Emit(Pieces(Cut(unread).1)));
  }

  lemma ClassText(pat: string, i: nat, end: nat)
    requires i < end < |pat| && pat[i] == '[' && pat[end] == ']'
    ensures pat[i..end + 1] == "[" + pat[i + 1..end] + "]"
  {
    assert pat[i..end + 1] == [pat[i]] + pat[i + 1..end] + [pat[end]];
  }

  /** One turn of the scanning loop: the text for what stands at index i, and where to go on. */
  method NextPart(pat: string, i: nat) returns (part: string, next: nat)
    requires i < |pat|
    ensures i < next <= |pat|
    ensures part == Fragment(Cut(pat[i..]).0) && pat[next..] == Cut(pat[i..]).1
  {
    var c := pat[i];
    CutAt(pat, i);
    next := i + 1;
    if c == '*' {
      if i + 1 < |pat| && pat[i + 1] == '*' {
        part := ".*";
        next := i + 2;
        if next < |pat| && pat[next] == '/' {
          next := next + 1;
        }
      } else {
        part := "[^/]*";
      }
    } else if c == '?' {
      part := "[^/]";
    } else if c == '[' {
      var end := Find(pat, ']', i);
      if end.None? {
        part := ['\\', c];
      } else {
        part := pat[i..end.value + 1];
        ClassText(pat, i, end.value);
        next := end.value + 1;
      }
    } else if IsSpecial(c) {
      part := ['\\', c];
    } else {
      part := [c];
    }
  }

  /** The scanning loop: whatever is collected plus the text of the unread glob is always the whole text. */
  method GlobToRegex(pat: string) returns (text: string)
    ensures text == PatternText(pat)
  {
    var parts: seq<string> := [];
    var i := 0;
    while i < |pat|
      invariant 0 <= i <= |pat|
      invariant Joined(parts) + Emit(Pieces(pat[i..])) == Emit(Pieces(pat))
      decreases |pat| - i
    {
      var part, next := NextPart(pat, i);
      ScanStep(parts, part, pat[i..], Emit(Pieces(pat)));
      parts, i := parts + [part], next;
    }
    text := "^" + Joined(parts) + "$";
  }

  lemma FragmentComesFirst(p: string)
    requires p != ""
    ensures Emit(Pieces(p)) == Fragment(Cut(p).0) + Emit(Pieces(Cut(p).1))
  {
    assert Pieces(p)[1..] == Pieces(Cut(p).1);
  }

  // ---- reading the emitted text back ----

  function ItemOf(piece: Piece): Item {
    match piece
    case DoubleStar => Item(Any, Repeated('*'))
    case Star => Item(Class("^/"), Repeated('*'))
    case One => Item(Class("^/"), Once)
    case Set(body) => Item(Class(body), Once)
    case Char(c) => Item(Literal(c), Once)
  }

  function Items(pieces: seq<Piece>): (r: seq<Item>)
    ensures |r| == |pieces|
  {
    if pieces == [] then [] else [ItemOf(pieces[0])] + Items(pieces[1..])
  }

  /** Read two characters at a time after a backslash, the scan of b lands exactly on its end. */
  predicate ScansToEnd(b: string, i: nat)
    decreases |b| - i
  {
    if i >= |b| then i == |b| else ScansToEnd(b, if b[i] == '\\' then i + 2 else i + 1)
  }

  /** A class body whose first `]` is where Python also ends the class. */
  predicate ClosingBody(body: string) {
    body != "" && body != "^" && ScansToEnd(body, 0)
  }

  /** Every bracket class of the pieces closes where the glob scanner closed it. */
  predicate ClosingClasses(pieces: seq<Piece>) {
    forall j :: 0 <= j < |pieces| && pieces[j].Set? ==> ClosingBody(pieces[j].body)
  }

  /** Pieces as the scanner produces them. */
  ghost predicate Scanned(pieces: seq<Piece>) {
    forall j :: 0 <= j < |pieces| ==>
      (pieces[j].Set? ==> ']' !in pieces[j].body) && (pieces[j].Char? ==> pieces[j].c !in "*?")
  }

  lemma {:induction false} PiecesAreScanned(p: string)
    ensures Scanned(Pieces(p))
    decreases |p|
  {
    if p != "" {
      PiecesAreScanned(Cut(p).1);
      if Cut(p).0.Set? {
        var end := Find(p, ']', 0).value;
        assert p[0..end][1..] == p[1..end];
      }
    }
  }

  /** Scanning body then `]`: the bracket found is the one after the body iff the body scans to its end. */
  lemma {:induction false} ClassEndAfterBody(body: string, rest: string, i: nat)
    requires ']' !in body && i <= |body|
    ensures ClassEnd(body + "]" + rest, i) == Some(|body|) <==> ScansToEnd(body, i)
    decreases |body| - i
  {
    var t := body + "]" + rest;
    if i < |body| {
      assert t[i] == body[i];
      var step := if body[i] == '\\' then 2 else 1;
      if i + step <= |body| {
        ClassEndAfterBody(body, rest, i + step);
      } else {
        assert ClassEnd(t, i) == ClassEnd(t, i + 2);
      }
    }
  }

  lemma ClassCloseAfterBody(body: string, rest: string)
    requires ']' !in body
    ensures ClassClose(body + "]" + rest) == Some(|body|) <==> ClosingBody(body)
  {
    var t := body + "]" + rest;
    if body == "" || body == "^" {
      assert t[|body|] == ']';
    } else {
      assert t[0] == body[0];
      var start := if body[0] == '^' then 1 else 0;
      assert t[start] == body[start];
      ClassEndAfterBody(body, rest, start);
      assert ScansToEnd(body, 0) == ScansToEnd(body, start);
    }
  }

  /** No emitted text starts with a quantifier, so nothing turns into one for its left neighbour. */
  lemma EmitNeverStartsAQuantifier(pieces: seq<Piece>)
    requires Scanned(pieces)
    ensures !StartsQuantifier(Emit(pieces) + "$")
  {
    if pieces != [] {
      assert Emit(pieces) == Fragment(pieces[0]) + Emit(pieces[1..]);
    }
  }

  lemma StarReads(tail: string)
    requires !StartsQuantifier(tail)
    ensures ReadRepeat("*" + tail) == Some((Repeated('*'), tail))
  {
    var t := "*" + tail;
    assert t[1..] == tail && (|t| > 1 ==> t[1] == tail[0]);
  }

  /** How a fragment followed by tail reads: an atom, then its repeat, then the tail. */
  ghost predicate ReadsAs(t: string, item: Item, tail: string) {
    ReadAtom(t).Some? && ReadAtom(t).value.0 == item.atom &&
    ReadRepeat(ReadAtom(t).value.1) == Some((item.repeat, tail))
  }

  /** One fragment is read back as its item, whatever follows, except a class that Python closes elsewhere. */
  lemma FragmentReadsBack(piece: Piece, tail: string)
    requires Scanned([piece]) && !StartsQuantifier(tail)
    ensures var t := Fragment(piece) + tail;
            if piece.Set? && !ClosingBody(piece.body) then ReadAtom(t).None? || ReadAtom(t).value.0 != Class(piece.body)
            else ReadsAs(t, ItemOf(piece), tail)
  {
    assert [piece][0] == piece;
    match piece
    case DoubleStar =>
      StarReads(tail);
      assert (".*" + tail)[1..] == "*" + tail;
    case Star =>
      StarReads(tail);
      NoSlashReads("*" + tail);
      assert "[^/]*" + tail == "[^/]" + ("*" + tail);
    case One =>
      NoSlashReads(tail);
    case Set(body) =>
      ClassTextReads(body, tail);
    case Char(c) =>
      CharReads(c, tail);
  }

  lemma NoSlashReads(tail: string)
    ensures ReadAtom("[^/]" + tail) == Some((Class("^/"), tail))
  {
    ClassTextReads("^/", tail);
    assert "[^/]" == "[" + "^/" + "]";
  }

  lemma CharReads(c: char, tail: string)
    requires c !in "*?" && !StartsQuantifier(tail)
    ensures ReadsAs(Fragment(Char(c)) + tail, Item(Literal(c), Once), tail)
  {
    var t := Fragment(Char(c)) + tail;
    if IsSpecial(c) || c == '[' {
      assert t[0] == '\\' && t[1] == c && t[2..] == tail;
    } else {
      assert t[0] == c && t[1..] == tail;
    }
  }

  lemma ClassTextReads(body: string, tail: string)
    requires ']' !in body
    ensures var atom := ReadAtom("[" + body + "]" + tail);
            if ClosingBody(body) then atom == Some((Class(body), tail))
            else atom.None? || atom.value.0 != Class(body)
  {
    var t := "[" + body + "]" + tail;
    assert t[1..] == body + "]" + tail;
    ClassCloseAfterBody(body, tail);
    var inner := t[1..];
    match ClassClose(inner)
    case None =>
    case Some(e) =>
      assert |inner[..e]| == e;
      if e == |body| {
        assert inner[..e] == body && inner[e + 1..] == tail;
      }
  }

  lemma ClosingClassesSplit(pieces: seq<Piece>)
    requires pieces != []
    ensures ClosingClasses(pieces) <==>
            (pieces[0].Set? ==> ClosingBody(pieces[0].body)) && ClosingClasses(pieces[1..])
    ensures Scanned(pieces) ==> Scanned([pieces[0]]) && Scanned(pieces[1..])
  {
    assert forall j :: 0 < j < |pieces| ==> pieces[j] == pieces[1..][j - 1];
  }

  /** The text of the pieces reads back as exactly their items, iff every class closes where it should. */
  lemma {:induction false} EmitReadsBack(pieces: seq<Piece>)
    requires Scanned(pieces)
    ensures ReadBody(Emit(pieces) + "$") == Some(Items(pieces)) <==> ClosingClasses(pieces)
  {
    if pieces != [] {
      var piece, rest := pieces[0], pieces[1..];
      var tail := Emit(rest) + "$";
      ClosingClassesSplit(pieces);
      EmitReadsBack(rest);
      EmitNeverStartsAQuantifier(rest);
      FragmentReadsBack(piece, tail);
      Regroup(Fragment(piece), Emit(rest), "$");
      assert |Fragment(piece)| >= 1 && |tail| >= 1;
      ReadOneMore(Fragment(piece) + tail, piece, tail, Items(rest));
      assert Items(pieces) == [ItemOf(piece)] + Items(rest);
    }
  }

  lemma ReadOneMore(t: string, piece: Piece, tail: string, more: seq<Item>)
    requires |t| >= 2
    requires if piece.Set? && !ClosingBody(piece.body) then ReadAtom(t).None? || ReadAtom(t).value.0 != Class(piece.body)
             else ReadsAs(t, ItemOf(piece), tail)
    ensures ReadBody(t) == Some([ItemOf(piece)] + more) <==>
            (piece.Set? ==> ClosingBody(piece.body)) && ReadBody(tail) == Some(more)
  {
    assert t != "$";
    var all := [ItemOf(piece)] + more;
    assert all[0] == ItemOf(piece) && all[1..] == more;
  }

  /** Re-reading: `re.compile` of the emitted text yields the intended items iff the classes close. */
  lemma TextReadsBack(p: string)
    ensures Read(PatternText(p)) == Some(Items(Pieces(p))) <==> ClosingClasses(Pieces(p))
  {
    PiecesAreScanned(p);
    EmitReadsBack(Pieces(p));
    Anchors(Emit(Pieces(p)));
  }

  lemma Anchors(body: string)
    ensures Read("^" + body + "$") == ReadBody(body + "$")
  {
    assert ("^" + body + "$")[1..] == body + "$";
  }

  /** A glob without `[` has no class, so its text always reads back as intended. */
  lemma {:induction false} ClassFreeCloses(p: string)
    requires '[' !in p
    ensures ClosingClasses(Pieces(p))
    decreases |p|
  {
    if p != "" {
      ClassFreeCloses(Cut(p).1);
    }
  }

  lemma EmptyClassPieces()
    ensures Pieces("[]a]") == [Set(""), Char('a'), Char(']')]
  {
    assert Find("[]a]", ']', 0) == Some(1);
    assert "[]a]"[1..1] == "" && "[]a]"[2..] == "a]" && "a]"[1..] == "]" && "]"[1..] == "";
    assert Cut("[]a]") == (Set(""), "a]") && Cut("a]") == (Char('a'), "]") && Cut("]") == (Char(']'), "");
    assert Pieces("]") == [Char(']')] && Pieces("a]") == [Char('a')] + Pieces("]");
  }

  lemma EmptyClassText()
    ensures ReadAtom("[]a]$") == Some((Class("]a"), "$"))
  {
    assert "[]a]$"[1..] == "]a]$";
    assert ClassEnd("]a]$", 2) == Some(2);
    assert ClassClose("]a]$") == Some(2);
    assert "]a]$"[..2] == "]a" && "]a]$"[3..] == "$";
  }

  /** The glob `[]a]` is a class of nothing and two literals, but its text is read as
      one class holding `]` and `a`. */
  lemma EmptyClassReadsDifferently()
    ensures Pieces("[]a]") == [Set(""), Char('a'), Char(']')]
    ensures !ClosingClasses(Pieces("[]a]"))
    ensures ReadAtom("[]a]$") == Some((Class("]a"), "$"))
  {
    EmptyClassPieces();
    EmptyClassText();
    assert Pieces("[]a]")[0] == Set("");
  }

  // ---- meaning is preserved ----

  /** The items of a glob accept exactly the paths the glob stands for. */
  lemma {:induction false} ItemsMeanTheGlob(p: string, s: string, oracle: ClassOracle)
    ensures Accepts(Items(Pieces(p)), s, oracle) <==> GlobMatch(p, s, oracle)
    decreases |p|
  {
    if p != "" {
      var (piece, rest) := Cut(p);
      var items, more := Items(Pieces(p)), Items(Pieces(rest));
      assert items == [ItemOf(piece)] + more && items[1..] == more;
      if piece.DoubleStar? || piece.Star? {
        var a := ItemOf(piece).atom;
        StarTakesARun(a, more, s, oracle);
        forall k | 0 <= k <= |s|
          ensures Accepts(more, s[k..], oracle) == GlobMatch(rest, s[k..], oracle)
        {
          ItemsMeanTheGlob(rest, s[k..], oracle);
        }
        RunOfPiece(p, s, oracle);
      } else if s != "" {
        ItemsMeanTheGlob(rest, s[1..], oracle);
      }
    }
  }

  /** GlobMatch for a glob that starts with a star, in the words of the compiled star. */
  lemma RunOfPiece(p: string, s: string, oracle: ClassOracle)
    requires p != "" && p[0] == '*'
    ensures GlobMatch(p, s, oracle) <==>
            exists k :: 0 <= k <= |s| && AllAccepted(ItemOf(Cut(p).0).atom, s[..k], oracle) &&
                        GlobMatch(Cut(p).1, s[k..], oracle)
  {
    var a := ItemOf(Cut(p).0).atom;
    var barred := if Cut(p).0.DoubleStar? then '\n' else '/';
    forall k | 0 <= k <= |s| ensures AllAccepted(a, s[..k], oracle) <==> barred !in s[..k] {}
  }

  /** End to end, for every glob whose classes close and every path: `search` on the compiled text
      finds the path iff the glob stands for it, or for it without a final newline. */
  lemma CompiledGlobMeansTheGlob(p: string, s: string, oracle: ClassOracle)
    requires ClosingClasses(Pieces(p))
    ensures Read(PatternText(p)).Some?
    ensures Search(Read(PatternText(p)).value, s, oracle) <==>
            GlobMatch(p, s, oracle) || (s != "" && s[|s| - 1] == '\n' && GlobMatch(p, s[..|s| - 1], oracle))
  {
    TextReadsBack(p);
    ItemsMeanTheGlob(p, s, oracle);
    if s != "" {
      ItemsMeanTheGlob(p, s[..|s| - 1], oracle);
    }
  }

  /** For the paths file systems hold, which have no newline, nothing is added. */
  lemma CompiledGlobOnPaths(p: string, s: string, oracle: ClassOracle)
    requires ClosingClasses(Pieces(p)) && '\n' !in s
    ensures Read(PatternText(p)).Some?
    ensures Search(Read(PatternText(p)).value, s, oracle) <==> GlobMatch(p, s, oracle)
  {
    CompiledGlobMeansTheGlob(p, s, oracle);
  }
}
