/** Facts about concatenation and products that the verifier wants to be told. */
module Sequences {
  lemma HeadAndTail<T>(a: seq<T>, b: seq<T>)
    requires a != []
    ensures (a + b)[0] == a[0] && (a + b)[1..] == a[1..] + b
  {
  }

  lemma Regroup<T>(a: seq<T>, b: seq<T>, c: seq<T>)
    ensures a + (b + c) == a + b + c
  {
  }

  lemma Times(c: int, limit: int)
    ensures (c + 1) * limit == c * limit + limit && (c - 1) * limit == c * limit - limit
  {
  }
}
