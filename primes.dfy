/*
 * The primality test a play0mq worker applies to every number it pulls:
 * isPrime does trial division by 2 and then by the odd numbers 3, 5, 7, ...
 * while the square of the divisor does not exceed the value.
 */
module Primes {

  predicate Divides(d: int, v: int) {
    d > 0 && v % d == 0
  }

  /** v is prime: at least 2 and without a divisor strictly between 1 and v. */
  ghost predicate IsPrime(v: int) {
    2 <= v && forall d :: 2 <= d < v ==> !Divides(d, v)
  }

  /** No divisor d >= 2 with d * d <= v: the candidates isPrime tries. */
  ghost predicate NoDivisorUpToRoot(v: int) {
    forall d :: 2 <= d && d * d <= v ==> !Divides(d, v)
  }

  lemma ProductBound(a: int, t: int)
    requires a > 0 && 0 <= a * t < a
    ensures t == 0
  {
  }

  /** a divides every multiple of a. */
  lemma DividesMultiple(a: int, q: int)
    requires a > 0
    ensures Divides(a, a * q)
  {
    var v := a * q;
    assert v == a * (v / a) + v % a;
    assert a * (q - v / a) == v % a;
    ProductBound(a, q - v / a);
  }

  lemma CoFactorAtLeastTwo(d: int, q: int, v: int)
    requires 2 <= d < v && v == d * q
    ensures 2 <= q
  {
  }

  lemma SmallerSquare(d: int, q: int)
    requires 0 <= d && 0 <= q
    ensures d * d <= d * q || q * q <= q * d
  {
    if d <= q {
      assert d * d <= d * q;
    } else {
      assert q * q <= q * d;
    }
  }

  /**
   * A divisor d of v with 2 <= d < v comes with the co-divisor v / d, and one
   * of the two is at most the square root of v.
   */
  lemma CoDivisor(d: int, v: int)
    requires 2 <= d < v && Divides(d, v)
    ensures 2 <= v / d && Divides(v / d, v)
    ensures d * d <= v || (v / d) * (v / d) <= v
  {
    var q := v / d;
    assert v == d * q;
    CoFactorAtLeastTwo(d, q, v);
    assert d * q == q * d;
    DividesMultiple(q, d);
    SmallerSquare(d, q);
  }

  /** A number 2 does not divide has no even divisor 2 * j. */
  lemma EvenDivisor(j: int, v: int)
    requires 1 <= j && Divides(2 * j, v)
    ensures Divides(2, v)
  {
    var q := v / (2 * j);
    assert v == (2 * j) * q;
    assert v == 2 * (j * q);
    DividesMultiple(2, j * q);
  }

  lemma SquareExceeds(d: int)
    requires 2 <= d
    ensures d < d * d
  {
  }

  /**
   * Testing the divisors up to the square root decides primality: for v at
   * least 2, v is prime exactly when no d with 2 <= d and d * d <= v divides it.
   */
  lemma {:induction false} PrimeIffNoDivisorUpToRoot(v: int)
    requires 2 <= v
    ensures IsPrime(v) <==> NoDivisorUpToRoot(v)
  {
    if IsPrime(v) {
      forall d | 2 <= d && d * d <= v ensures !Divides(d, v) {
        SquareExceeds(d);
      }
    }
    if NoDivisorUpToRoot(v) {
      forall d | 2 <= d < v ensures !Divides(d, v) {
        if Divides(d, v) {
          CoDivisor(d, v);
        }
      }
    }
  }

  lemma SquareMonotone(a: int, b: int)
    requires 0 <= a <= b
    ensures a * a <= b * b
  {
    assert a * a <= a * b <= b * b;
  }

  /** Once d * d exceeds v, no candidate below d dividing v means v is prime. */
  lemma NoCandidateLeft(v: int, d: int)
    requires 2 <= v && 2 <= d && v < d * d
    requires forall k :: 2 <= k < d ==> !Divides(k, v)
    ensures IsPrime(v)
  {
    forall k | 2 <= k && k * k <= v ensures !Divides(k, v) {
      if d <= k {
        SquareMonotone(d, k);
      }
    }
    PrimeIffNoDivisorUpToRoot(v);
  }

  /** After the odd candidate d, the next one is d + 2: the even d + 1 cannot divide v when 2 does not. */
  lemma NextOddCandidate(v: int, d: int, half: int)
    requires 3 <= d && d == 2 * half + 1 && !Divides(d, v)
    requires forall k :: 2 <= k < d ==> !Divides(k, v)
    ensures forall k :: 2 <= k < d + 2 ==> !Divides(k, v)
  {
    if Divides(2 * (half + 1), v) {
      EvenDivisor(half + 1, v);
    }
  }

  /**
   * isPrime: false below 2, otherwise trial division by 2 and then by odd d
   * while d * d <= v.
   */
  method TrialDivision(v: int) returns (r: bool)
    ensures r == IsPrime(v)
  {
    if v < 2 {
      return false;
    }
    var d := 2;
    ghost var half := 1;
    while d * d <= v
      invariant 2 <= d && (d == 2 || d == 2 * half + 1)
      invariant forall k :: 2 <= k < d ==> !Divides(k, v)
      decreases v - d
    {
      SquareExceeds(d);
      if v % d == 0 {
        assert Divides(d, v);
        return false;
      }
      if d == 2 {
        d, half := 3, 1;
      } else {
        NextOddCandidate(v, d, half);
        d, half := d + 2, half + 1;
      }
    }
    NoCandidateLeft(v, d);
    return true;
  }

  /** The subsequence of ns a worker reports back, in order: its primes. */
  ghost function PrimesIn(ns: seq<int>): (ps: seq<int>)
    ensures |ps| <= |ns|
  {
    if ns == [] then []
    else PrimesIn(ns[..|ns| - 1]) + (if IsPrime(ns[|ns| - 1]) then [ns[|ns| - 1]] else [])
  }

  /** PrimesIn keeps exactly the primes: each of its elements is a prime of ns, and each prime of ns is kept. */
  lemma {:induction false} PrimesInKeepsThePrimes(ns: seq<int>)
    ensures forall i :: 0 <= i < |PrimesIn(ns)| ==> IsPrime(PrimesIn(ns)[i]) && PrimesIn(ns)[i] in ns
    ensures forall i :: 0 <= i < |ns| && IsPrime(ns[i]) ==> ns[i] in PrimesIn(ns)
  {
    if ns != [] {
      var init := ns[..|ns| - 1];
      PrimesInKeepsThePrimes(init);
      assert forall i :: 0 <= i < |init| ==> init[i] == ns[i];
      assert ns == init + [ns[|ns| - 1]];
    }
  }

  lemma PrimesInSnoc(ns: seq<int>, n: int)
    ensures PrimesIn(ns + [n]) == PrimesIn(ns) + (if IsPrime(n) then [n] else [])
  {
    assert (ns + [n])[..|ns|] == ns;
  }
}
