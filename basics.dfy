/** Small value types and the two Python built-ins the scraper leans on. */
module Basics {

  /** A value that may be missing, as Python's `None`. */
  datatype Option<+T> = None | Some(value: T)

  /** The result of a step that may raise. */
  datatype Result<+T, +E> = Ok(value: T) | Err(error: E)

  /** Python's slice `s[:n]` for a non-negative `n`: the longest prefix of at most `n` items. */
  function Take<T>(s: seq<T>, n: nat): (r: seq<T>)
    ensures |r| == if |s| < n then |s| else n
    ensures r == s[..|r|]
  {
    if |s| <= n then s else s[..n]
  }

  /** Python's `s.startswith(p)`. */
  predicate StartsWith(s: string, p: string)
  {
    |p| <= |s| && s[..|p|] == p
  }

  /** The present values of a sequence of options, in order (a filter-map's second half). */
  function Somes<T>(xs: seq<Option<T>>): (r: seq<T>)
    ensures |r| <= |xs|
  {
    if xs == [] then []
    else
      var init := Somes(xs[..|xs| - 1]);
      match xs[|xs| - 1]
      case None => init
      case Some(x) => init + [x]
  }

  /** Keeping the present values distributes over concatenation, so relative order survives. */
  lemma {:induction false} SomesAppend<T>(a: seq<Option<T>>, b: seq<Option<T>>)
    ensures Somes(a + b) == Somes(a) + Somes(b)
    decreases |b|
  {
    if b == [] {
      assert a + b == a;
    } else {
      var b' := b[..|b| - 1];
      assert (a + b)[..|a + b| - 1] == a + b';
      assert (a + b)[|a + b| - 1] == b[|b| - 1];
      SomesAppend(a, b');
    }
  }

  /** A value is kept exactly when it is present somewhere in the input. */
  lemma {:induction false} SomesMembers<T>(xs: seq<Option<T>>, x: T)
    ensures x in Somes(xs) <==> Some(x) in xs
    decreases |xs|
  {
    if xs != [] {
      var init := xs[..|xs| - 1];
      SomesMembers(init, x);
      assert xs == init + [xs[|xs| - 1]];
    }
  }

  /** With nothing missing, every value is kept, position by position. */
  lemma {:induction false} SomesAllPresent<T>(xs: seq<Option<T>>)
    requires forall i | 0 <= i < |xs| :: xs[i].Some?
    ensures |Somes(xs)| == |xs|
    ensures forall i | 0 <= i < |xs| :: Somes(xs)[i] == xs[i].value
    decreases |xs|
  {
    if xs != [] {
      var init := xs[..|xs| - 1];
      SomesAllPresent(init);
    }
  }
}
