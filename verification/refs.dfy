/** Reference lists (`cursos`, `estudiantes`) as Mongoose arrays: `push`
    appends one element, `pull` removes every element equal to its
    argument. */
module Refs {

  /** A document identifier (a Mongo ObjectId), kept abstract: only
      equality matters. The text form is what request payloads carry. */
  type Id = string

  /** `array.pull(x)`: every occurrence of `x` is gone, every other element
      keeps its number of occurrences. */
  function Pull(xs: seq<Id>, x: Id): (r: seq<Id>)
    ensures x !in r
    ensures multiset(r) == multiset(xs)[x := 0]
    ensures forall y :: y != x ==> (y in r <==> y in xs)
    ensures |r| <= |xs|
  {
    if xs == [] then []
    else
      assert xs == [xs[0]] + xs[1..];
      if xs[0] == x then Pull(xs[1..], x) else [xs[0]] + Pull(xs[1..], x)
  }

  /** Pulling from a concatenation pulls from each part in place, so the
      elements that remain keep their relative order. */
  lemma {:induction false} PullConcat(a: seq<Id>, b: seq<Id>, x: Id)
    ensures Pull(a + b, x) == Pull(a, x) + Pull(b, x)
    decreases |a|
  {
    if a == [] {
      assert a + b == b;
    } else {
      assert (a + b)[1..] == a[1..] + b;
      PullConcat(a[1..], b, x);
    }
  }

  /** Pulling an element that is not there changes nothing. */
  lemma {:induction false} PullAbsent(xs: seq<Id>, x: Id)
    requires x !in xs
    ensures Pull(xs, x) == xs
    decreases |xs|
  {
    if xs != [] {
      PullAbsent(xs[1..], x);
    }
  }

  /** Pulling twice is pulling once. */
  lemma PullIdempotent(xs: seq<Id>, x: Id)
    ensures Pull(Pull(xs, x), x) == Pull(xs, x)
  {
  }

  /** `push` then `pull` of an element that was absent restores the list. */
  lemma PullAfterPush(xs: seq<Id>, x: Id)
    requires x !in xs
    ensures Pull(xs + [x], x) == xs
  {
    PullConcat(xs, [x], x);
    PullAbsent(xs, x);
    assert Pull([x], x) == [];
  }
}
