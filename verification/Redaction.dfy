/** Redaction of nested values before they leave in a response.

    Keys are compared after lower-casing, which is any function on strings here;
    so everything below holds for whatever Unicode makes of it. */
module Redaction {
  import opened Wrappers

  datatype Value =
    | Leaf(text: string)              // None, strings, numbers and booleans
    | Dict(items: seq<Entry>)         // in insertion order
    | List(elements: seq<Value>)
    | Tuple(members: seq<Value>)

  datatype Entry = Entry(key: string, value: Value)

  type Lower = string -> string

  const KEYWORDS := ["token", "secret", "password", "api_key", "apikey", "authorization"]
  const REDACTED := Leaf("[REDACTED]")

  predicate Contains(s: string, part: string) {
    exists i :: 0 <= i <= |s| && part <= s[i..]
  }

  predicate Sensitive(key: string, lower: Lower) {
    exists k :: 0 <= k < |KEYWORDS| && Contains(lower(key), KEYWORDS[k])
  }

  predicate Marker(m: string) {
    m == "token" || m == "secret" || m == "password" || m == "api_key" || m == "apikey" || m == "authorization"
  }

  lemma ContainsIff(s: string, part: string)
    ensures Contains(s, part) <==> exists a, b :: s == a + part + b
  {
    if Contains(s, part) {
      var i :| 0 <= i <= |s| && part <= s[i..];
      assert s == s[..i] + part + s[i..][|part|..];
    }
    if exists a, b :: s == a + part + b {
      var a, b :| s == a + part + b;
      assert s[|a|..] == part + b;
    }
  }

  /** The keys whose values are hidden: those with one of six markers somewhere in them. */
  lemma SensitiveIffMarked(key: string, lower: Lower)
    ensures Sensitive(key, lower) <==> exists m, a, b :: Marker(m) && lower(key) == a + m + b
  {
    assert forall m :: Marker(m) <==> exists k :: 0 <= k < |KEYWORDS| && KEYWORDS[k] == m by {
      assert KEYWORDS[0] == "token" && KEYWORDS[1] == "secret" && KEYWORDS[2] == "password";
      assert KEYWORDS[3] == "api_key" && KEYWORDS[4] == "apikey" && KEYWORDS[5] == "authorization";
    }
    if Sensitive(key, lower) {
      var k :| 0 <= k < |KEYWORDS| && Contains(lower(key), KEYWORDS[k]);
      ContainsIff(lower(key), KEYWORDS[k]);
      var a, b :| lower(key) == a + KEYWORDS[k] + b;
      assert Marker(KEYWORDS[k]) && lower(key) == a + KEYWORDS[k] + b;
    }
    if exists m, a, b :: Marker(m) && lower(key) == a + m + b {
      var m, a, b :| Marker(m) && lower(key) == a + m + b;
      var k :| 0 <= k < |KEYWORDS| && KEYWORDS[k] == m;
      ContainsIff(lower(key), KEYWORDS[k]);
    }
  }

  // ---- what redaction makes of a value ----

  function Redact(v: Value, lower: Lower): Value {
    match v
    case Leaf(_) => v
    case Dict(items) => Dict(seq(|items|, i requires 0 <= i < |items| =>
        Entry(items[i].key, if Sensitive(items[i].key, lower) then REDACTED else Redact(items[i].value, lower))))
    case List(elements) => List(seq(|elements|, i requires 0 <= i < |elements| => Redact(elements[i], lower)))
    case Tuple(members) => List(seq(|members|, i requires 0 <= i < |members| => Redact(members[i], lower)))
  }

  /** The recursion; the loop over a dict's items fills a fresh dict, and a tuple comes back as a list. */
  method RedactSensitive(v: Value, lower: Lower) returns (r: Value)
    ensures r == Redact(v, lower)
    decreases v, 1
  {
    match v {
      case Leaf(_) =>
        return v;
      case Dict(items) =>
        var out: seq<Entry> := [];
        for i := 0 to |items|
          invariant |out| == i
          invariant forall j :: 0 <= j < i ==> out[j] == Redact(v, lower).items[j]
        {
          if Sensitive(items[i].key, lower) {
            out := out + [Entry(items[i].key, REDACTED)];
          } else {
            var redacted := RedactSensitive(items[i].value, lower);
            out := out + [Entry(items[i].key, redacted)];
          }
        }
        assert out == Redact(v, lower).items;
        return Dict(out);
      case List(elements) =>
        var out := RedactEach(elements, lower);
        assert out == Redact(v, lower).elements;
        return List(out);
      case Tuple(members) =>
        var out := RedactEach(members, lower);
        assert out == Redact(v, lower).elements;
        return List(out);
    }
  }

  method RedactEach(vs: seq<Value>, lower: Lower) returns (r: seq<Value>)
    ensures |r| == |vs| && forall i :: 0 <= i < |vs| ==> r[i] == Redact(vs[i], lower)
    decreases vs, 0
  {
    r := [];
    for i := 0 to |vs|
      invariant |r| == i && forall j :: 0 <= j < i ==> r[j] == Redact(vs[j], lower)
    {
      var redacted := RedactSensitive(vs[i], lower);
      r := r + [redacted];
    }
  }

  // ---- non-interference ----

  /** Equal but for what lies below sensitive keys. */
  ghost predicate SameOutside(v: Value, w: Value, lower: Lower) {
    match v
    case Leaf(_) => v == w
    case Dict(items) =>
      w.Dict? && |items| == |w.items| &&
      forall i :: 0 <= i < |items| ==>
        items[i].key == w.items[i].key &&
        (Sensitive(items[i].key, lower) || SameOutside(items[i].value, w.items[i].value, lower))
    case List(elements) =>
      w.List? && |elements| == |w.elements| &&
      forall i :: 0 <= i < |elements| ==> SameOutside(elements[i], w.elements[i], lower)
    case Tuple(members) =>
      w.Tuple? && |members| == |w.members| &&
      forall i :: 0 <= i < |members| ==> SameOutside(members[i], w.members[i], lower)
  }

  /** Values that differ only below sensitive keys redact to the same value. */
  lemma {:induction false} NothingShows(v: Value, w: Value, lower: Lower)
    requires SameOutside(v, w, lower)
    ensures Redact(v, lower) == Redact(w, lower)
  {
    match v
    case Leaf(_) =>
    case Dict(items) =>
      forall i | 0 <= i < |items| ensures Redact(v, lower).items[i] == Redact(w, lower).items[i] {
        if !Sensitive(items[i].key, lower) {
          NothingShows(items[i].value, w.items[i].value, lower);
        }
      }
      assert Redact(v, lower).items == Redact(w, lower).items;
    case List(elements) =>
      forall i | 0 <= i < |elements| ensures Redact(v, lower).elements[i] == Redact(w, lower).elements[i] {
        NothingShows(elements[i], w.elements[i], lower);
      }
      assert Redact(v, lower).elements == Redact(w, lower).elements;
    case Tuple(members) =>
      forall i | 0 <= i < |members| ensures Redact(v, lower).elements[i] == Redact(w, lower).elements[i] {
        NothingShows(members[i], w.members[i], lower);
      }
      assert Redact(v, lower).elements == Redact(w, lower).elements;
  }

  /** Redacting what is redacted changes nothing. */
  lemma {:induction false} RedactTwice(v: Value, lower: Lower)
    ensures Redact(Redact(v, lower), lower) == Redact(v, lower)
  {
    var r := Redact(v, lower);
    match v
    case Leaf(_) =>
    case Dict(items) =>
      forall i | 0 <= i < |items| ensures Redact(r, lower).items[i] == r.items[i] {
        if !Sensitive(items[i].key, lower) {
          RedactTwice(items[i].value, lower);
        }
      }
      assert Redact(r, lower).items == r.items;
    case List(elements) =>
      forall i | 0 <= i < |elements| ensures Redact(r, lower).elements[i] == r.elements[i] {
        RedactTwice(elements[i], lower);
      }
      assert Redact(r, lower).elements == r.elements;
    case Tuple(members) =>
      forall i | 0 <= i < |members| ensures Redact(r, lower).elements[i] == r.elements[i] {
        RedactTwice(members[i], lower);
      }
      assert Redact(r, lower).elements == r.elements;
  }

  // ---- what is kept, place by place ----

  function Children(v: Value): seq<Value> {
    match v
    case Leaf(_) => []
    case Dict(items) => seq(|items|, i requires 0 <= i < |items| => items[i].value)
    case List(elements) => elements
    case Tuple(members) => members
  }

  /** The value at a place, given by the index to take at each level. */
  function At(v: Value, place: seq<nat>): Option<Value>
    decreases |place|
  {
    if place == [] then Some(v)
    else if place[0] < |Children(v)| then At(Children(v)[place[0]], place[1..])
    else None
  }

  /** No key on the way to the place is sensitive. */
  predicate Clear(v: Value, place: seq<nat>, lower: Lower)
    decreases |place|
  {
    place == [] ||
    (place[0] < |Children(v)| && (v.Dict? ==> !Sensitive(v.items[place[0]].key, lower)) &&
     Clear(Children(v)[place[0]], place[1..], lower))
  }

  /** At a place reached by no sensitive key stands the redaction of what stood there: a leaf is unchanged,
      a dict keeps its keys and a list its length. */
  lemma {:induction false} ClearPlacesAreKept(v: Value, place: seq<nat>, lower: Lower)
    requires Clear(v, place, lower)
    ensures At(v, place).Some? && At(Redact(v, lower), place) == Some(Redact(At(v, place).value, lower))
    ensures At(v, place).value.Leaf? ==> At(Redact(v, lower), place) == At(v, place)
    decreases |place|
  {
    if place != [] {
      ClearPlacesAreKept(Children(v)[place[0]], place[1..], lower);
    }
  }

  /** The value of the first sensitive key on a way down is the marker, and nothing is found below it. */
  lemma {:induction false} SensitivePlacesAreHidden(v: Value, place: seq<nat>, i: nat, below: seq<nat>, lower: Lower)
    requires Clear(v, place, lower) && At(v, place).Some? && At(v, place).value.Dict?
    requires i < |At(v, place).value.items| && Sensitive(At(v, place).value.items[i].key, lower)
    ensures At(Redact(v, lower), place + [i] + below) == if below == [] then Some(Leaf("[REDACTED]")) else None
    decreases |place|
  {
    var way := place + [i] + below;
    if place == [] {
      assert way[0] == i && way[1..] == below;
    } else {
      assert way[1..] == place[1..] + [i] + below;
      SensitivePlacesAreHidden(Children(v)[place[0]], place[1..], i, below, lower);
    }
  }
}
