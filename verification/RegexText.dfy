/** The slice of Python's pattern syntax that ignore rules are compiled to.

    Read turns pattern text back into items the way `re.compile` does: it knows
    escapes, bracket classes and every postfix quantifier, so that text which was
    meant as one thing but reads as another is told apart. It answers None for
    what Python rejects (an unclosed class, a quantifier with nothing to repeat)
    and for the constructs an ignore rule never produces (groups, alternation,
    counted and possessive repeats, letter and digit escapes). */
module RegexText {
  import opened Wrappers

  datatype Atom = Any | Class(body: string) | Literal(c: char)
  datatype Repeat = Once | Repeated(op: char)
  datatype Item = Item(atom: Atom, repeat: Repeat)

  /** What a bracket class other than the compiler's own contains: left open. */
  type ClassOracle = (string, char) -> bool

  /** The characters the compiler puts a backslash before, besides `[`. */
  predicate IsSpecial(c: char) {
    c in ".^$+{}()|\\"
  }

  // ---- reading ----

  /** Index of the bracket that closes a class scanned from i; a backslash hides the next character. */
  function ClassEnd(t: string, i: nat): (r: Option<nat>)
    ensures r.Some? ==> i <= r.value < |t| && t[r.value] == ']'
    decreases |t| - i
  {
    if i >= |t| then None
    else if t[i] == ']' then Some(i)
    else if t[i] == '\\' then ClassEnd(t, i + 2)
    else ClassEnd(t, i + 1)
  }

  /** A bracket directly after `[` or `[^` stands for itself and does not close the class. */
  function ClassClose(t: string): (r: Option<nat>)
    ensures r.Some? ==> r.value < |t| && t[r.value] == ']'
  {
    var start := if |t| > 0 && t[0] == '^' then 1 else 0;
    if start < |t| && t[start] == ']' then ClassEnd(t, start + 1) else ClassEnd(t, start)
  }

  predicate IsAlnum(c: char) {
    'a' <= c <= 'z' || 'A' <= c <= 'Z' || '0' <= c <= '9'
  }

  function ReadAtom(t: string): (r: Option<(Atom, string)>)
    ensures r.Some? ==> |r.value.1| < |t|
  {
    if t == "" then None
    else if t[0] == '.' then Some((Any, t[1..]))
    else if t[0] == '[' then
      match ClassClose(t[1..])
      case None => None
      case Some(e) => Some((Class(t[1..][..e]), t[1..][e + 1..]))
    else if t[0] == '\\' then
      if |t| < 2 || IsAlnum(t[1]) then None else Some((Literal(t[1]), t[2..]))
    else if IsSpecial(t[0]) || t[0] in "*?" then None
    else Some((Literal(t[0]), t[1..]))
  }

  predicate StartsQuantifier(t: string) {
    |t| > 0 && t[0] in "*+?{"
  }

  /** A quantifier and its lazy mark, which changes no language; possessive and counted forms are refused. */
  function ReadRepeat(t: string): (r: Option<(Repeat, string)>)
    ensures r.Some? ==> |r.value.1| <= |t|
  {
    if !StartsQuantifier(t) then Some((Once, t))
    else if t[0] == '{' then None
    else if |t| > 1 && t[1] == '+' then None
    else if |t| > 1 && t[1] == '?' then Some((Repeated(t[0]), t[2..]))
    else Some((Repeated(t[0]), t[1..]))
  }

  /** Items up to the `$` that ends the text. */
  function ReadBody(t: string): Option<seq<Item>>
    decreases |t|
  {
    if t == "$" then Some([])
    else match ReadAtom(t)
      case None => None
      case Some((a, afterAtom)) =>
        match ReadRepeat(afterAtom)
        case None => None
        case Some((q, rest)) =>
          match ReadBody(rest)
          case None => None
          case Some(items) => Some([Item(a, q)] + items)
  }

  function Read(t: string): Option<seq<Item>> {
    if |t| > 0 && t[0] == '^' then ReadBody(t[1..]) else None
  }

  // ---- meaning ----

  predicate AtomAccepts(a: Atom, c: char, oracle: ClassOracle) {
    match a
    case Any => c != '\n'
    case Class(body) => if body == "^/" then c != '/' else oracle(body, c)
    case Literal(x) => c == x
  }

  /** The item list accepts exactly the string s. */
  predicate Accepts(items: seq<Item>, s: string, oracle: ClassOracle)
    decreases |items| + |s|
  {
    if items == [] then s == ""
    else
      var first := s != "" && AtomAccepts(items[0].atom, s[0], oracle);
      match items[0].repeat
      case Once => first && Accepts(items[1..], s[1..], oracle)
      case Repeated(op) =>
        if op == '*' then Accepts(items[1..], s, oracle) || (first && Accepts(items, s[1..], oracle))
        else if op == '?' then Accepts(items[1..], s, oracle) || (first && Accepts(items[1..], s[1..], oracle))
        else first && (Accepts(items[1..], s[1..], oracle) || Accepts(items, s[1..], oracle))
  }

  /** `pattern.search` for a pattern between `^` and `$`: the closing `$` also stands before a final newline. */
  predicate Search(items: seq<Item>, s: string, oracle: ClassOracle) {
    Accepts(items, s, oracle) ||
    (s != "" && s[|s| - 1] == '\n' && Accepts(items, s[..|s| - 1], oracle))
  }

  ghost predicate AllAccepted(a: Atom, s: string, oracle: ClassOracle) {
    forall j :: 0 <= j < |s| ==> AtomAccepts(a, s[j], oracle)
  }

  /** A starred item takes any run its atom accepts and leaves the remainder to what follows. */
  lemma {:induction false} StarTakesARun(a: Atom, rest: seq<Item>, s: string, oracle: ClassOracle)
    ensures Accepts([Item(a, Repeated('*'))] + rest, s, oracle) <==>
            exists k :: 0 <= k <= |s| && AllAccepted(a, s[..k], oracle) && Accepts(rest, s[k..], oracle)
  {
    var items := [Item(a, Repeated('*'))] + rest;
    assert items[1..] == rest;
    if Accepts(rest, s, oracle) {
      assert s[0..] == s && AllAccepted(a, s[..0], oracle);
    }
    if s != "" {
      StarTakesARun(a, rest, s[1..], oracle);
      if AtomAccepts(a, s[0], oracle) && Accepts(items, s[1..], oracle) {
        var k :| 0 <= k <= |s[1..]| && AllAccepted(a, s[1..][..k], oracle) && Accepts(rest, s[1..][k..], oracle);
        assert s[1..][k..] == s[k + 1..];
        assert s[..k + 1] == [s[0]] + s[1..][..k];
        assert AllAccepted(a, s[..k + 1], oracle);
      }
    }
    if exists k :: 0 <= k <= |s| && AllAccepted(a, s[..k], oracle) && Accepts(rest, s[k..], oracle) {
      var k :| 0 <= k <= |s| && AllAccepted(a, s[..k], oracle) && Accepts(rest, s[k..], oracle);
      if k == 0 {
        assert s[0..] == s;
      } else {
        assert s[..k][0] == s[0];
        assert s[1..][k - 1..] == s[k..];
        assert s[1..][..k - 1] == s[..k][1..];
        assert AllAccepted(a, s[1..][..k - 1], oracle);
      }
    }
  }
}
