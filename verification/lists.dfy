/** Sequence operations shared by the client-side state machines. */
module Lists {

  /** `xs.filter(y => y !== x)`: every occurrence of `x` dropped, everything else kept in order. */
  function Without<T(==)>(xs: seq<T>, x: T): (r: seq<T>)
    ensures x !in r
    ensures forall y | y in xs && y != x :: y in r
    ensures forall y | y in r :: y in xs
    ensures |r| <= |xs|
  {
    if xs == [] then []
    else if xs[0] == x then Without(xs[1..], x)
    else [xs[0]] + Without(xs[1..], x)
  }

  /** `a` is `b` with some elements dropped and the rest in their original order. */
  predicate IsSubsequence<T(==)>(a: seq<T>, b: seq<T>)
    decreases |b|
  {
    if a == [] then true
    else if b == [] then false
    else if a[0] == b[0] then IsSubsequence(a[1..], b[1..])
    else IsSubsequence(a, b[1..])
  }

  lemma {:induction false} SubsequenceMembers<T>(a: seq<T>, b: seq<T>)
    requires IsSubsequence(a, b)
    ensures forall x | x in a :: x in b
    decreases |b|
  {
    if a != [] {
      if a[0] == b[0] {
        SubsequenceMembers(a[1..], b[1..]);
        assert a == [a[0]] + a[1..];
      } else {
        SubsequenceMembers(a, b[1..]);
      }
    }
  }

  lemma {:induction false} SubsequenceReflexive<T>(a: seq<T>)
    ensures IsSubsequence(a, a)
    decreases |a|
  {
    if a != [] {
      SubsequenceReflexive(a[1..]);
    }
  }

  lemma {:induction false} WithoutIsSubsequence<T>(xs: seq<T>, x: T)
    ensures IsSubsequence(Without(xs, x), xs)
    decreases |xs|
  {
    if xs != [] {
      WithoutIsSubsequence(xs[1..], x);
      if xs[0] != x {
        assert ([xs[0]] + Without(xs[1..], x))[1..] == Without(xs[1..], x);
      } else {
        var w := Without(xs[1..], x);
        if w != [] {
          assert w[0] != x;
        }
      }
    }
  }

  /** No element occurs twice. */
  predicate NoDuplicates<T(==)>(xs: seq<T>) {
    forall i, j | 0 <= i < j < |xs| :: xs[i] != xs[j]
  }

  /** Removing an element that is not there changes nothing. */
  lemma {:induction false} WithoutAbsent<T>(xs: seq<T>, x: T)
    requires x !in xs
    ensures Without(xs, x) == xs
    decreases |xs|
  {
    if xs != [] {
      WithoutAbsent(xs[1..], x);
      assert xs == [xs[0]] + xs[1..];
    }
  }

  lemma {:induction false} WithoutKeepsNoDuplicates<T>(xs: seq<T>, x: T)
    requires NoDuplicates(xs)
    ensures NoDuplicates(Without(xs, x))
    decreases |xs|
  {
    if xs != [] {
      WithoutKeepsNoDuplicates(xs[1..], x);
      if xs[0] != x {
        assert xs[0] !in xs[1..];
        assert xs[0] !in Without(xs[1..], x);
      }
    }
  }

  /** Dropping `y` commutes with dropping `x`. */
  lemma {:induction false} WithoutCommutes<T>(xs: seq<T>, x: T, y: T)
    ensures Without(Without(xs, x), y) == Without(Without(xs, y), x)
    decreases |xs|
  {
    if xs != [] {
      WithoutCommutes(xs[1..], x, y);
    }
  }

  /** Dropping distributes over concatenation. */
  lemma {:induction false} WithoutAppend<T>(a: seq<T>, b: seq<T>, x: T)
    ensures Without(a + b, x) == Without(a, x) + Without(b, x)
    decreases |a|
  {
    if a != [] {
      assert (a + b)[1..] == a[1..] + b;
      WithoutAppend(a[1..], b, x);
    } else {
      assert a + b == b;
    }
  }
}
