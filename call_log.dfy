/** Logs of calls made to collaborators: the calls a step appends to the log
    it found. */
module CallLog {

  /** `after` is `before` with calls appended. */
  predicate Extends<T(==)>(before: seq<T>, after: seq<T>)
  {
    |before| <= |after| && after[..|before|] == before
  }

  /** The calls made after `before`. */
  function Since<T(==)>(before: seq<T>, after: seq<T>): (d: seq<T>)
    requires Extends(before, after)
    ensures after == before + d
  {
    after[|before|..]
  }

  lemma SinceTrans<T>(a: seq<T>, b: seq<T>, c: seq<T>)
    requires Extends(a, b) && Extends(b, c)
    ensures Extends(a, c) && Since(a, c) == Since(a, b) + Since(b, c)
  {
    assert c[..|a|] == c[..|b|][..|a|];
  }

  lemma SinceAppend<T>(a: seq<T>, d: seq<T>)
    ensures Extends(a, a + d) && Since(a, a + d) == d
  {
    assert (a + d)[..|a|] == a;
  }
}
