/** The Python list built-ins the queries rely on: `max`, `list.index` and `sum`. */
module Lists {

  /** No element occurs twice, as with the keys of a dict. */
  predicate Distinct<T(==)>(s: seq<T>) {
    forall i, j :: 0 <= i < j < |s| ==> s[i] != s[j]
  }

  /** `max(s)` over a non-empty list of numbers (an empty list raises ValueError). */
  function Max(s: seq<real>): (m: real)
    requires |s| > 0
    ensures m in s
    ensures forall x :: x in s ==> x <= m
  {
    if |s| == 1 then s[0]
    else
      assert s == [s[0]] + s[1..];
      var rest := Max(s[1..]);
      if s[0] >= rest then s[0] else rest
  }

  /** `max(s)` over a non-empty list of counts. */
  function MaxNat(s: seq<nat>): (m: nat)
    requires |s| > 0
    ensures m in s
    ensures forall x :: x in s ==> x <= m
  {
    if |s| == 1 then s[0]
    else
      assert s == [s[0]] + s[1..];
      var rest := MaxNat(s[1..]);
      if s[0] >= rest then s[0] else rest
  }

  /** `s.index(x)`: the position of the first occurrence of x. */
  function IndexOf<T(==)>(s: seq<T>, x: T): (i: nat)
    requires x in s
    ensures i < |s| && s[i] == x
    ensures forall j :: 0 <= j < i ==> s[j] != x
  {
    if s[0] == x then 0 else 1 + IndexOf(s[1..], x)
  }

  /** `sum(s)`, adding from left to right. */
  function Sum(s: seq<real>): real {
    if s == [] then 0.0 else Sum(s[..|s| - 1]) + s[|s| - 1]
  }

  /** A sum of |s| values that all lie in [lo, hi] lies in [|s| * lo, |s| * hi]. */
  lemma {:induction false} SumBounds(s: seq<real>, lo: real, hi: real)
    requires forall x :: x in s ==> lo <= x <= hi
    ensures (|s| as real) * lo <= Sum(s) <= (|s| as real) * hi
  {
    if s != [] {
      var init := s[..|s| - 1];
      assert forall x :: x in init ==> x in s;
      SumBounds(init, lo, hi);
      assert s[|s| - 1] in s;
    }
  }

  /** In a list without repetitions every element occurs exactly once. */
  lemma {:induction false} DistinctMultiplicity<T>(s: seq<T>, x: T)
    requires Distinct(s)
    ensures multiset(s)[x] == if x in s then 1 else 0
  {
    if s != [] {
      var init, last := s[..|s| - 1], s[|s| - 1];
      assert s == init + [last];
      DistinctMultiplicity(init, x);
      if x == last {
        assert x !in init;
      }
    }
  }

  /** Dividing by a positive count: n * lo <= a <= n * hi gives lo <= a / n <= hi. */
  lemma DivideWithin(a: real, n: real, lo: real, hi: real)
    requires n > 0.0 && n * lo <= a <= n * hi
    ensures lo <= a / n <= hi
  {
  }

  /** The mean of a non-empty list of values in [lo, hi] lies in [lo, hi]. */
  lemma MeanWithin(s: seq<real>, lo: real, hi: real)
    requires |s| > 0
    requires forall x :: x in s ==> lo <= x <= hi
    ensures lo <= Sum(s) / (|s| as real) <= hi
  {
    SumBounds(s, lo, hi);
    DivideWithin(Sum(s), |s| as real, lo, hi);
  }

  /**
   * Taking the last element of a off a and the same element at position j off b
   * keeps the two lists permutations of each other.
   */
  lemma PermutationWithoutLast<T>(a: seq<T>, b: seq<T>, j: nat)
    requires multiset(a) == multiset(b) && a != []
    requires j < |b| && b[j] == a[|a| - 1]
    ensures multiset(b[..j] + b[j + 1..]) == multiset(a[..|a| - 1])
  {
    var x, init, rest := a[|a| - 1], a[..|a| - 1], b[..j] + b[j + 1..];
    assert multiset(a) == multiset(init) + multiset{x} by {
      assert a == init + [x];
    }
    assert multiset(b) == multiset(rest) + multiset{x} by {
      assert b == b[..j] + [x] + b[j + 1..];
    }
    forall y
      ensures multiset(rest)[y] == multiset(init)[y]
    {
      assert (multiset(rest) + multiset{x})[y] == (multiset(init) + multiset{x})[y];
    }
  }
}
