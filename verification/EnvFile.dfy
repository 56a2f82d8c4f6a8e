/** The `.env` writer and reader: what is installed is what is read back. */
module EnvFile {
  import opened Sequences
  import opened Wrappers

  const KEY_NAME := "CODECORTEX_CLIENT_API_KEY"

  // ---- characters and stripping ----

  /** The characters at which `str.splitlines` breaks. */
  predicate IsBreak(c: char) {
    c in "\n\r\U{0B}\U{0C}\U{1C}\U{1D}\U{1E}\U{85}\U{2028}\U{2029}"
  }

  /** The characters `str.strip` removes. */
  predicate IsSpace(c: char) {
    IsBreak(c) || c == ' ' || c == '\t' || c == '\U{1F}' || c == '\U{A0}' || c == '\U{1680}' ||
    '\U{2000}' <= c <= '\U{200A}' || c == '\U{202F}' || c == '\U{205F}' || c == '\U{3000}'
  }

  predicate IsDouble(c: char) { c == '"' }

  predicate IsSingle(c: char) { c == '\'' }

  function LStrip(s: string, p: char -> bool): string {
    if s != "" && p(s[0]) then LStrip(s[1..], p) else s
  }

  function RStrip(s: string, p: char -> bool): string {
    if s != "" && p(s[|s| - 1]) then RStrip(s[..|s| - 1], p) else s
  }

  function Strip(s: string, p: char -> bool): string {
    LStrip(RStrip(s, p), p)
  }

  function Trim(s: string): string {
    Strip(s, IsSpace)
  }

  /** `value.strip('"').strip("'")`. */
  function Unquote(s: string): string {
    Strip(Strip(s, IsDouble), IsSingle)
  }

  lemma {:induction false} RStripEnds(s: string, p: char -> bool)
    ensures RStrip(s, p) <= s
    ensures RStrip(s, p) != "" ==> !p(RStrip(s, p)[|RStrip(s, p)| - 1])
    ensures RStrip(s, p) == s <==> s == "" || !p(s[|s| - 1])
  {
    if s != "" && p(s[|s| - 1]) {
      RStripEnds(s[..|s| - 1], p);
    }
  }

  lemma {:induction false} LStripEnds(s: string, p: char -> bool)
    ensures |LStrip(s, p)| <= |s| && LStrip(s, p) == s[|s| - |LStrip(s, p)|..]
    ensures LStrip(s, p) == s <==> s == "" || !p(s[0])
  {
    if s != "" && p(s[0]) {
      LStripEnds(s[1..], p);
    }
  }

  lemma RStripTwice(s: string, p: char -> bool)
    ensures RStrip(RStrip(s, p), p) == RStrip(s, p)
  {
    RStripEnds(s, p);
    RStripEnds(RStrip(s, p), p);
  }

  /** Nothing is stripped exactly when neither end is to be stripped. */
  lemma StripKeeps(s: string, p: char -> bool)
    ensures |Strip(s, p)| <= |s| && (|Strip(s, p)| == |s| ==> Strip(s, p) == s)
    ensures Strip(s, p) == s <==> s == "" || (!p(s[0]) && !p(s[|s| - 1]))
  {
    RStripEnds(s, p);
    LStripEnds(RStrip(s, p), p);
  }

  // ---- lines ----

  predicate Unbroken(s: string) {
    forall c :: c in s ==> !IsBreak(c)
  }

  ghost predicate AllUnbroken(lines: seq<string>) {
    forall k :: 0 <= k < |lines| ==> Unbroken(lines[k])
  }

  /** Length of the first line. */
  function LineEnd(s: string): (k: nat)
    ensures k <= |s| && Unbroken(s[..k]) && (k < |s| ==> IsBreak(s[k]))
  {
    if s == "" || IsBreak(s[0]) then 0
    else
      var k := LineEnd(s[1..]);
      assert s[..k + 1] == [s[0]] + s[1..][..k];
      k + 1
  }

  /** `str.splitlines()`: a final break adds no empty line, and a carriage return with its newline is one break. */
  function SplitLines(s: string): seq<string>
    decreases |s|
  {
    if s == "" then []
    else
      var k := LineEnd(s);
      if k == |s| then [s]
      else [s[..k]] + SplitLines(if s[k] == '\r' && k + 1 < |s| && s[k + 1] == '\n' then s[k + 2..] else s[k + 1..])
  }

  function JoinLines(lines: seq<string>): string {
    if lines == [] then ""
    else if |lines| == 1 then lines[0]
    else lines[0] + "\n" + JoinLines(lines[1..])
  }

  lemma {:induction false} SplitIsUnbroken(s: string)
    ensures AllUnbroken(SplitLines(s))
    decreases |s|
  {
    if s != "" {
      var k := LineEnd(s);
      if k == |s| {
        assert s[..k] == s;
      } else {
        SplitIsUnbroken(if s[k] == '\r' && k + 1 < |s| && s[k + 1] == '\n' then s[k + 2..] else s[k + 1..]);
      }
    }
  }

  lemma {:induction false} LineEndAt(line: string, rest: string)
    requires Unbroken(line)
    ensures LineEnd(line + "\n" + rest) == |line|
  {
    if line == "" {
      assert line + "\n" + rest == "\n" + rest;
    } else {
      assert line[0] in line && forall c :: c in line[1..] ==> c in line;
      LineEndAt(line[1..], rest);
      assert (line + "\n" + rest)[0] == line[0] && (line + "\n" + rest)[1..] == line[1..] + "\n" + rest;
    }
  }

  lemma SplitFirst(line: string, rest: string)
    requires Unbroken(line)
    ensures SplitLines(line + "\n" + rest) == [line] + SplitLines(rest)
  {
    LineEndAt(line, rest);
    var s := line + "\n" + rest;
    assert s[|line|] == '\n' && s[..|line|] == line && s[|line| + 1..] == rest;
  }

  /** Lines written with newlines, the last one included, are the lines read. */
  lemma {:induction false} SplitOfJoin(lines: seq<string>)
    requires AllUnbroken(lines) && lines != []
    ensures SplitLines(JoinLines(lines) + "\n") == lines
  {
    if |lines| == 1 {
      SplitFirst(lines[0], "");
      assert lines[0] + "\n" + "" == lines[0] + "\n";
    } else {
      SplitOfJoin(lines[1..]);
      SplitFirst(lines[0], JoinLines(lines[1..]) + "\n");
      Regroup(lines[0] + "\n", JoinLines(lines[1..]), "\n");
      assert [lines[0]] + lines[1..] == lines;
    }
  }

  // ---- the reader ----

  function FindEquals(s: string): (k: nat)
    ensures k <= |s| && (k < |s| ==> s[k] == '=') && '=' !in s[..k]
  {
    if s == "" || s[0] == '=' then 0
    else
      var k := FindEquals(s[1..]);
      assert s[..k + 1] == [s[0]] + s[1..][..k];
      k + 1
  }

  const EXPORT := "export "

  /** A line without surrounding blanks and `export`; empty for a comment. */
  function Payload(raw: string): string {
    var line := Trim(raw);
    if line == "" || line[0] == '#' then "" else if EXPORT <= line then Trim(line[|EXPORT|..]) else line
  }

  function Said(line: string, key: string): Option<string> {
    var k := FindEquals(line);
    if k == |line| || Trim(line[..k]) != key then None else Some(Unquote(Trim(line[k + 1..])))
  }

  /** What one line says of a key. */
  function LineValue(raw: string, key: string): Option<string> {
    Said(Payload(raw), key)
  }

  /** The first line that says anything of the key decides. */
  function FirstValue(lines: seq<string>, key: string): Option<string> {
    if lines == [] then None
    else if LineValue(lines[0], key).Some? then LineValue(lines[0], key)
    else FirstValue(lines[1..], key)
  }

  function Parsed(v: Option<string>): Option<string> {
    if v == Some("") then None else v
  }

  function ParsedText(content: Option<string>, key: string): Option<string> {
    if content.None? then None else Parsed(FirstValue(SplitLines(content.value), key))
  }

  // ---- the writer ----

  predicate Assigns(raw: string, key: string) {
    key + "=" <= Trim(raw)
  }

  /** Index of the first line that assigns the key, or the number of lines. */
  function FoundAt(lines: seq<string>, key: string): (i: nat)
    ensures i <= |lines| && (i < |lines| ==> key + "=" <= Trim(lines[i]))
    ensures forall j :: 0 <= j < i ==> !(key + "=" <= Trim(lines[j]))
  {
    if lines == [] || Assigns(lines[0], key) then 0 else 1 + FoundAt(lines[1..], key)
  }

  function Installed(lines: seq<string>, key: string, value: string): seq<string> {
    var i := FoundAt(lines, key);
    if i < |lines| then lines[i := key + "=" + value] else lines + [key + "=" + value]
  }

  function Written(lines: seq<string>): string {
    RStrip(JoinLines(lines), IsSpace) + "\n"
  }

  /** A name as environment variables have it. */
  ghost predicate GoodName(key: string) {
    key != "" && key[0] != '#' && '=' !in key && forall c :: c in key ==> !IsSpace(c)
  }

  class EnvStore {
    var content: Option<string>
    const keyName: string

    constructor (content: Option<string>, keyName: string)
      ensures this.content == content && this.keyName == keyName
    {
      this.content, this.keyName := content, keyName;
    }

    /** The scanning loop and the rewrite; a refusal changes nothing. */
    method InstallToEnv(value: string, force: bool) returns (ok: bool, message: string)
      modifies this`content
      ensures var lines := if old(content).Some? then SplitLines(old(content).value) else [];
              (ok <==> force || FoundAt(lines, keyName) == |lines|) &&
              content == (if ok then Some(Written(Installed(lines, keyName, value))) else old(content))
    {
      var lines := if content.Some? then SplitLines(content.value) else [];
      var foundIndex := -1;
      var i := 0;
      assert lines[0..] == lines;
      while i < |lines|
        invariant 0 <= i <= |lines| && foundIndex == -1
        invariant FoundAt(lines, keyName) == i + FoundAt(lines[i..], keyName)
      {
        assert lines[i..][1..] == lines[i + 1..];
        if Assigns(lines[i], keyName) {
          foundIndex := i;
          break;
        }
        i := i + 1;
      }
      if foundIndex >= 0 && !force {
        return false, "existing_key_detected";
      }
      var assignment := keyName + "=" + value;
      if foundIndex >= 0 {
        lines := lines[foundIndex := assignment];
      } else {
        lines := lines + [assignment];
      }
      content := Some(RStrip(JoinLines(lines), IsSpace) + "\n");
      return true, "installed";
    }

    method ParseEnvValue(key: string) returns (r: Option<string>)
      ensures r == ParsedText(content, key)
    {
      if content.None? {
        return None;
      }
      var lines := SplitLines(content.value);
      assert lines[0..] == lines;
      for i := 0 to |lines|
        invariant FirstValue(lines, key) == FirstValue(lines[i..], key)
      {
        assert lines[i..][0] == lines[i] && lines[i..][1..] == lines[i + 1..];
        var line := Payload(lines[i]);
        if line == "" {
          continue;
        }
        var said := Said(line, key);
        if said.Some? {
          return if said.value == "" then None else said;
        }
      }
      return None;
    }
  }

  // ---- trimming the end of the file changes no value ----

  predicate Blank(s: string) {
    RStrip(s, IsSpace) == ""
  }

  /** The lines left when trailing white space of the whole file goes. */
  function TrimLines(lines: seq<string>): seq<string> {
    if lines == [] then []
    else
      var last := |lines| - 1;
      if Blank(lines[last]) then TrimLines(lines[..last]) else lines[..last] + [RStrip(lines[last], IsSpace)]
  }

  lemma {:induction false} RStripConcat(a: string, b: string)
    ensures RStrip(a + b, IsSpace) == if Blank(b) then RStrip(a, IsSpace) else a + RStrip(b, IsSpace)
  {
    if b == "" {
      assert a + b == a;
    } else if IsSpace(b[|b| - 1]) {
      RStripConcat(a, b[..|b| - 1]);
      assert (a + b)[..|a + b| - 1] == a + b[..|b| - 1];
    }
  }

  lemma {:induction false} JoinLast(lines: seq<string>, last: string)
    ensures JoinLines(lines + [last]) == if lines == [] then last else JoinLines(lines) + "\n" + last
  {
    if lines == [] {
      assert lines + [last] == [last];
    } else {
      JoinLast(lines[1..], last);
      assert (lines + [last])[1..] == lines[1..] + [last];
      if |lines| > 1 {
        assert lines[0] + "\n" + (JoinLines(lines[1..]) + "\n" + last) == lines[0] + "\n" + JoinLines(lines[1..]) + "\n" + last;
      }
    }
  }

  lemma {:induction false} RStripOfJoin(lines: seq<string>)
    ensures RStrip(JoinLines(lines), IsSpace) == JoinLines(TrimLines(lines))
  {
    if lines != [] {
      var init, last := lines[..|lines| - 1], lines[|lines| - 1];
      assert lines == init + [last];
      RStripOfJoin(init);
      JoinLast(init, last);
      if init == [] {
        assert TrimLines(init) == [] && [] + [RStrip(last, IsSpace)] == [RStrip(last, IsSpace)];
      } else {
        RStripConcat(JoinLines(init) + "\n", last);
        NewlineGoes(JoinLines(init));
        JoinLast(init, RStrip(last, IsSpace));
      }
    }
  }

  lemma NewlineGoes(s: string)
    ensures RStrip(s + "\n", IsSpace) == RStrip(s, IsSpace)
  {
    assert (s + "\n")[..|s|] == s;
  }

  /** A line reads the same without its trailing white space. */
  lemma TrimmedLineSameValue(raw: string, key: string)
    ensures LineValue(RStrip(raw, IsSpace), key) == LineValue(raw, key)
    ensures Blank(raw) ==> LineValue(raw, key) == None
  {
    RStripTwice(raw, IsSpace);
  }

  lemma {:induction false} FirstValueConcat(a: seq<string>, b: seq<string>, key: string)
    ensures FirstValue(a + b, key) == if FirstValue(a, key).Some? then FirstValue(a, key) else FirstValue(b, key)
  {
    if a == [] {
      assert a + b == b;
    } else {
      FirstValueConcat(a[1..], b, key);
      HeadAndTail(a, b);
    }
  }

  lemma OneLine(line: string, key: string)
    ensures FirstValue([line], key) == LineValue(line, key)
  {
    assert [line][1..] == [];
  }

  lemma {:induction false} TrimLinesSameValues(lines: seq<string>, key: string)
    ensures FirstValue(TrimLines(lines), key) == FirstValue(lines, key)
  {
    if lines != [] {
      var init, last := lines[..|lines| - 1], lines[|lines| - 1];
      assert lines == init + [last];
      TrimLinesSameValues(init, key);
      TrimmedLineSameValue(last, key);
      FirstValueConcat(init, [last], key);
      FirstValueConcat(init, [RStrip(last, IsSpace)], key);
      OneLine(last, key);
      OneLine(RStrip(last, IsSpace), key);
    }
  }

  lemma {:induction false} TrimLinesUnbroken(lines: seq<string>)
    requires AllUnbroken(lines)
    ensures AllUnbroken(TrimLines(lines))
  {
    if lines != [] {
      var last := |lines| - 1;
      TrimLinesUnbroken(lines[..last]);
      RStripEnds(lines[last], IsSpace);
      assert forall c :: c in RStrip(lines[last], IsSpace) ==> c in lines[last];
    }
  }

  /** What is read from a written file is what its lines say. */
  lemma WrittenReads(lines: seq<string>, key: string)
    requires AllUnbroken(lines)
    ensures ParsedText(Some(Written(lines)), key) == Parsed(FirstValue(lines, key))
  {
    RStripOfJoin(lines);
    TrimLinesUnbroken(lines);
    TrimLinesSameValues(lines, key);
    if TrimLines(lines) == [] {
      SplitFirst("", "");
      assert "" + "\n" + "" == "\n" && SplitLines("") == [];
      OneLine("", key);
    } else {
      SplitOfJoin(TrimLines(lines));
    }
  }

  // ---- what the assignment line says ----

  lemma {:induction false} FindEqualsAfter(name: string, rest: string)
    requires '=' !in name
    ensures FindEquals(name + "=" + rest) == |name|
  {
    if name == "" {
      assert name + "=" + rest == "=" + rest;
    } else {
      FindEqualsAfter(name[1..], rest);
      assert (name + "=" + rest)[0] == name[0] && (name + "=" + rest)[1..] == name[1..] + "=" + rest;
    }
  }

  lemma NotExport(key: string, rest: string)
    requires GoodName(key)
    ensures !(EXPORT <= key + "=" + rest)
  {
    var s := key + "=" + rest;
    assert EXPORT[6] == ' ' && |EXPORT| == 7;
    if |key| > 6 {
      assert s[6] == key[6] && key[6] in key;
    } else {
      assert s[|key|] == '=' && EXPORT[|key|] != '=';
    }
  }

  /** A line whose stripped form begins with `key=` speaks of that key and of no other. */
  lemma AssigningLine(raw: string, key: string, rest: string, other: string)
    requires GoodName(key) && Trim(raw) == key + "=" + rest
    ensures LineValue(raw, other) == if other == key then Some(Unquote(Trim(rest))) else None
  {
    var s := key + "=" + rest;
    NotExport(key, rest);
    FindEqualsAfter(key, rest);
    assert s[..|key|] == key && s[|key| + 1..] == rest && s[0] == key[0];
    assert key[0] in key && key[|key| - 1] in key;
    StripKeeps(key, IsSpace);
  }

  lemma AssignmentReads(key: string, value: string, other: string)
    requires GoodName(key)
    ensures LineValue(key + "=" + value, other) == if other == key then Some(Unquote(Trim(value))) else None
  {
    var s := key + "=" + value;
    RStripConcat(key + "=", value);
    var rest := RStrip(value, IsSpace);
    assert RStrip(key + "=", IsSpace) == key + "=" by { assert (key + "=")[|key|] == '='; }
    assert RStrip(s, IsSpace) == key + "=" + rest;
    assert key[0] in key && (key + "=" + rest)[0] == key[0];
    LStripEnds(key + "=" + rest, IsSpace);
    AssigningLine(s, key, rest, other);
    RStripTwice(value, IsSpace);
  }

  /** Installing touches one line only: the first that assigns the key, or a new one at the end. */
  lemma InstalledKeepsLines(lines: seq<string>, key: string, value: string)
    ensures var i, after := FoundAt(lines, key), Installed(lines, key, value);
            |after| == (if i < |lines| then |lines| else |lines| + 1) && after[i] == key + "=" + value &&
            forall j :: 0 <= j < |lines| && j != i ==> after[j] == lines[j]
  {
  }

  /** The written file has these lines, but for blank ones at its end and white space at the end of the last. */
  lemma WrittenHasLines(lines: seq<string>)
    requires AllUnbroken(lines)
    ensures var kept := TrimLines(lines);
            |kept| <= |lines| && (forall j :: 0 <= j < |kept| - 1 ==> kept[j] == lines[j]) &&
            (forall j :: |kept| <= j < |lines| ==> RStrip(lines[j], IsSpace) == "") &&
            (kept != [] ==> kept[|kept| - 1] == RStrip(lines[|kept| - 1], IsSpace) &&
                            SplitLines(Written(lines)) == kept)
  {
    TrimLinesParts(lines);
    RStripOfJoin(lines);
    TrimLinesUnbroken(lines);
    if TrimLines(lines) != [] {
      SplitOfJoin(TrimLines(lines));
    }
  }

  lemma {:induction false} TrimLinesParts(lines: seq<string>)
    ensures var kept := TrimLines(lines);
            |kept| <= |lines| && (forall j :: 0 <= j < |kept| - 1 ==> kept[j] == lines[j]) &&
            (forall j :: |kept| <= j < |lines| ==> RStrip(lines[j], IsSpace) == "") &&
            (kept != [] ==> kept[|kept| - 1] == RStrip(lines[|kept| - 1], IsSpace))
  {
    if lines != [] && Blank(lines[|lines| - 1]) {
      TrimLinesParts(lines[..|lines| - 1]);
    }
  }

  /** A comment says nothing of any key, not even one with an assignment in it. */
  lemma CommentSaysNothing(raw: string, key: string)
    requires Trim(raw) != "" && Trim(raw)[0] == '#'
    ensures LineValue(raw, key) == None
  {
  }

  lemma DoubleQuotesGo(value: string)
    requires value != "" && BareEnd(value[0]) && BareEnd(value[|value| - 1])
    ensures Unquote(Trim("\"" + value + "\"")) == value
  {
    StripKeeps("\"" + value + "\"", IsSpace);
    StripBoth(value, '"', IsDouble);
    StripKeeps(value, IsSingle);
  }

  lemma SingleQuotesGo(value: string)
    requires value != "" && BareEnd(value[0]) && BareEnd(value[|value| - 1])
    ensures Unquote(Trim("'" + value + "'")) == value
  {
    StripKeeps("'" + value + "'", IsSpace);
    StripKeeps("'" + value + "'", IsDouble);
    StripBoth(value, '\'', IsSingle);
  }

  /** A value in quotes of either kind is read without them. */
  lemma QuotedIsReadBare(key: string, value: string)
    requires GoodName(key) && value != "" && BareEnd(value[0]) && BareEnd(value[|value| - 1])
    ensures LineValue(key + "=" + ("\"" + value + "\""), key) == Some(value)
    ensures LineValue(key + "=" + ("'" + value + "'"), key) == Some(value)
  {
    AssignmentReads(key, "\"" + value + "\"", key);
    AssignmentReads(key, "'" + value + "'", key);
    DoubleQuotesGo(value);
    SingleQuotesGo(value);
  }

  lemma StripBoth(value: string, q: char, p: char -> bool)
    requires value != "" && p(q) && !p(value[0]) && !p(value[|value| - 1])
    ensures Strip([q] + value + [q], p) == value
  {
    var s := [q] + value + [q];
    assert s[..|s| - 1] == [q] + value && ([q] + value)[|value|] == value[|value| - 1];
    RStripEnds([q] + value, p);
    assert RStrip(s, p) == [q] + value;
    assert ([q] + value)[1..] == value;
    LStripEnds(value, p);
  }

  /** A carriage return ends a line too, alone or before a newline. */
  lemma SplitAtReturn(line: string, rest: string)
    requires Unbroken(line)
    ensures SplitLines(line + "\r\n" + rest) == [line] + SplitLines(rest)
    ensures rest == "" || rest[0] != '\n' ==> SplitLines(line + "\r" + rest) == [line] + SplitLines(rest)
  {
    LineEndBefore(line, "\r\n" + rest);
    LineEndBefore(line, "\r" + rest);
    var s, t := line + "\r\n" + rest, line + "\r" + rest;
    assert s == line + ("\r\n" + rest) && s[|line|] == '\r' && s[|line| + 1] == '\n';
    assert s[..|line|] == line && s[|line| + 2..] == rest;
    assert t == line + ("\r" + rest) && t[|line|] == '\r' && t[..|line|] == line && t[|line| + 1..] == rest;
  }

  lemma {:induction false} LineEndBefore(line: string, rest: string)
    requires Unbroken(line) && rest != "" && IsBreak(rest[0])
    ensures LineEnd(line + rest) == |line|
  {
    if line == "" {
      assert line + rest == rest;
    } else {
      assert line[0] in line && forall c :: c in line[1..] ==> c in line;
      LineEndBefore(line[1..], rest);
      HeadAndTail(line, rest);
    }
  }

  // ---- the round trip ----

  lemma {:induction false} NotAssignedBefore(lines: seq<string>, key: string, other: string)
    requires GoodName(key)
    ensures other != key ==> FoundAt(lines, key) < |lines| ==> LineValue(lines[FoundAt(lines, key)], other) == None
  {
    var i := FoundAt(lines, key);
    if i < |lines| {
      var t := Trim(lines[i]);
      assert t == key + "=" + t[|key| + 1..];
      AssigningLine(lines[i], key, t[|key| + 1..], other);
    }
  }

  /** Where the assignment stands, the lines before it decide first, then it does. */
  lemma InstalledSays(lines: seq<string>, key: string, value: string, other: string)
    requires GoodName(key)
    ensures var earlier := FirstValue(lines[..FoundAt(lines, key)], key);
            FirstValue(Installed(lines, key, value), key) ==
              if earlier.Some? then earlier else Some(Unquote(Trim(value)))
    ensures other != key ==> FirstValue(Installed(lines, key, value), other) == FirstValue(lines, other)
  {
    var i, line := FoundAt(lines, key), key + "=" + value;
    AssignmentReads(key, value, key);
    AssignmentReads(key, value, other);
    if i < |lines| {
      NotAssignedBefore(lines, key, other);
      LineInMiddle(lines, i, line, key);
      LineInMiddle(lines, i, line, other);
      LineInMiddle(lines, i, lines[i], other);
      assert lines[i := lines[i]] == lines;
    } else {
      assert lines[..i] == lines;
      FirstValueConcat(lines, [line], key);
      FirstValueConcat(lines, [line], other);
      OneLine(line, key);
      OneLine(line, other);
    }
  }

  /** With line i replaced: the lines before it, then it, then those after it. */
  lemma LineInMiddle(lines: seq<string>, i: nat, line: string, key: string)
    requires i < |lines|
    ensures FirstValue(lines[i := line], key) ==
            if FirstValue(lines[..i], key).Some? then FirstValue(lines[..i], key)
            else if LineValue(line, key).Some? then LineValue(line, key)
            else FirstValue(lines[i + 1..], key)
  {
    var after := [line] + lines[i + 1..];
    assert lines[i := line] == lines[..i] + after;
    FirstValueConcat(lines[..i], after, key);
    assert after[0] == line && after[1..] == lines[i + 1..];
  }

  /** Lines of a file, none when it does not exist. */
  function LinesOf(content: Option<string>): seq<string> {
    if content.Some? then SplitLines(content.value) else []
  }

  /** After an installation the reader gives, for the key, what an earlier variant line (`export KEY=`,
      `KEY =`) says if there is one, and otherwise the installed value without surrounding blanks and
      quotes; for every other key it gives what it gave before. */
  lemma InstallThenParse(content: Option<string>, key: string, value: string, other: string)
    requires GoodName(key) && Unbroken(value)
    ensures var after := Some(Written(Installed(LinesOf(content), key, value)));
            var earlier := FirstValue(LinesOf(content)[..FoundAt(LinesOf(content), key)], key);
            ParsedText(after, key) == Parsed(if earlier.Some? then earlier else Some(Unquote(Trim(value)))) &&
            (other != key ==> ParsedText(after, other) == ParsedText(content, other))
  {
    var lines := LinesOf(content);
    if content.Some? {
      SplitIsUnbroken(content.value);
    }
    var installed := Installed(lines, key, value);
    assert Unbroken(key + "=" + value) by {
      forall c | c in key + "=" + value ensures !IsBreak(c) {
        assert c in key || c == '=' || c in value;
      }
    }
    assert AllUnbroken(installed);
    WrittenReads(installed, key);
    WrittenReads(installed, other);
    InstalledSays(lines, key, value, other);
  }

  predicate BareEnd(c: char) {
    !IsSpace(c) && !IsDouble(c) && !IsSingle(c)
  }

  lemma UnquoteKeeps(value: string)
    requires value != ""
    ensures Unquote(Trim(value)) == value <==> BareEnd(value[0]) && BareEnd(value[|value| - 1])
  {
    StripKeeps(value, IsSpace);
    StripKeeps(Trim(value), IsDouble);
    StripKeeps(Strip(Trim(value), IsDouble), IsSingle);
  }

  /** The round trip: an installed value is read back as it was given exactly when it is not empty and, if an
      earlier variant line speaks of the key, that line says just this value; and otherwise it neither begins nor
      ends with a blank or a quote. */
  lemma RoundTrip(content: Option<string>, key: string, value: string)
    requires GoodName(key) && Unbroken(value)
    ensures var earlier := FirstValue(LinesOf(content)[..FoundAt(LinesOf(content), key)], key);
            ParsedText(Some(Written(Installed(LinesOf(content), key, value))), key) == Some(value) <==>
            value != "" &&
            if earlier.Some? then earlier.value == value else BareEnd(value[0]) && BareEnd(value[|value| - 1])
  {
    InstallThenParse(content, key, value, key);
    if value != "" {
      UnquoteKeeps(value);
    }
  }

  lemma ExportPayload(said: string)
    requires said != "" && !IsSpace(said[0]) && !IsSpace(said[|said| - 1])
    ensures Trim(EXPORT + said) == EXPORT + said && Payload(EXPORT + said) == said
  {
    var raw := EXPORT + said;
    assert raw[0] == 'e' && raw[|raw| - 1] == said[|said| - 1];
    StripKeeps(raw, IsSpace);
    StripKeeps(said, IsSpace);
    assert raw[|EXPORT|..] == said;
  }

  lemma SaysItsValue(key: string, was: string)
    requires GoodName(key) && was != "" && BareEnd(was[0]) && BareEnd(was[|was| - 1])
    ensures Said(key + "=" + was, key) == Some(was)
  {
    var said := key + "=" + was;
    FindEqualsAfter(key, was);
    assert said[..|key|] == key && said[|key| + 1..] == was && key[0] in key && key[|key| - 1] in key;
    StripKeeps(key, IsSpace);
    UnquoteKeeps(was);
  }

  /** An `export` line speaks of its key, but is not the assignment the writer looks for. */
  lemma ExportLine(key: string, was: string)
    requires GoodName(key) && was != "" && BareEnd(was[0]) && BareEnd(was[|was| - 1])
    ensures LineValue(EXPORT + (key + "=" + was), key) == Some(was) && !Assigns(EXPORT + (key + "=" + was), key)
  {
    var said := key + "=" + was;
    assert key[0] in key && said[0] == key[0] && said[|said| - 1] == was[|was| - 1];
    ExportPayload(said);
    SaysItsValue(key, was);
    NotPrefix(key, EXPORT + said);
  }

  lemma NotPrefix(key: string, raw: string)
    requires GoodName(key) && EXPORT <= raw
    ensures !(key + "=" <= raw)
  {
    var s := key + "=";
    assert EXPORT[6] == ' ' && raw[6] == ' ';
    if |key| > 6 {
      assert s[6] == key[6] && key[6] in key;
    } else {
      assert s[|key|] == '=' && raw[|key|] == EXPORT[|key|] && EXPORT[|key|] != '=';
    }
  }

  /** So with `export KEY=old` in the file, an installation of whatever value succeeds without force, and what is
      read afterwards is still the old one. */
  lemma ExportLineStillDecides(key: string, was: string, value: string)
    requires GoodName(key) && Unbroken(was) && Unbroken(value)
    requires was != "" && BareEnd(was[0]) && BareEnd(was[|was| - 1])
    ensures var lines := LinesOf(Some(EXPORT + (key + "=" + was) + "\n"));
            FoundAt(lines, key) == |lines| && ParsedText(Some(Written(Installed(lines, key, value))), key) == Some(was)
  {
    var line := EXPORT + (key + "=" + was);
    forall c | c in line ensures !IsBreak(c) {
      assert c in EXPORT || c in key || c == '=' || c in was;
    }
    SplitFirst(line, "");
    assert line + "\n" + "" == line + "\n" && SplitLines(line + "\n") == [line];
    ExportLine(key, was);
    assert FoundAt([line], key) == 1 && [line][..1] == [line] by { assert [line][1..] == []; }
    OneLine(line, key);
    InstallThenParse(Some(line + "\n"), key, value, key);
  }

  predicate NameChar(c: char) {
    'A' <= c <= 'Z' || c == '_'
  }

  /** The shipped key name is a good name. */
  lemma KeyNameIsGood()
    ensures KEY_NAME == "CODECORTEX_CLIENT_API_KEY" && GoodName(KEY_NAME)
  {
    assert forall i :: 0 <= i < |KEY_NAME| ==> NameChar(KEY_NAME[i]);
    NameCharsAreGood(KEY_NAME);
  }

  lemma NameCharsAreGood(key: string)
    requires key != "" && forall i :: 0 <= i < |key| ==> NameChar(key[i])
    ensures GoodName(key)
  {
  }
}
