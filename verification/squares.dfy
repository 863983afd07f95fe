/** The test program `c_tests/squares.c`: a perfect-square test by
    counting up, and a `main` that prints the squares up to 100.

    c2bf compiles `int` as a signed 16-bit word (`S16`).  The model
    computes with mathematical integers and asks `n < 181 * 181`: the loop
    forms `i * i` one step past the square root of `n`, and below that
    bound every such product fits in 16 signed bits, so the unbounded
    reading agrees with the 16-bit one.  `main`'s inputs 1..100 lie well
    inside it.
 */
module Squares {
  import opened Words

  function Sq(k: int): int {
    k * k
  }

  /** `n` is the square of a positive integer. */
  ghost predicate IsPerfectSquare(n: int) {
    exists k :: k >= 1 && Sq(k) == n
  }

  /** The last root whose square fits in 16 signed bits:
      181 * 181 = 32761 <= 32767 < 182 * 182. */
  const ROOT_BOUND: int := 181

  /** Squares grow with their root. */
  lemma SqMonotone(a: int, b: int)
    requires 0 <= a <= b
    ensures Sq(a) <= Sq(b)
  {
    MulMono(a, b, a);
    MulMono(a, b, b);
  }

  lemma SqStrict(a: int, b: int)
    requires 0 <= a < b
    ensures Sq(a) < Sq(b)
  {
    SqMonotone(a, b - 1);
    assert Sq(b) == Sq(b - 1) + 2 * b - 1;
  }

  /** `is_square(n)`: 1 exactly when `n` is a positive square.  For
      `n < 1` the body never runs; once `out` is 1 it stays 1. */
  method IsSquare(n: int) returns (out: int)
    requires n < ROOT_BOUND * ROOT_BOUND
    ensures out == 0 || out == 1
    ensures out == 1 <==> IsPerfectSquare(n)
    ensures n < 1 ==> out == 0
  {
    out := 0;
    var i := 1;
    while Sq(i) <= n
      invariant 1 <= i
      invariant out == 0 || out == 1
      invariant out == 1 <==> exists k :: 1 <= k < i && Sq(k) == n
      decreases n - i + 1
    {
      SqMonotone(1, i);
      if Sq(i) == n {
        out := 1;
      }
      i := i + 1;
    }
    if out == 0 && IsPerfectSquare(n) {
      var k :| k >= 1 && Sq(k) == n;
      if k >= i {
        SqMonotone(i, k);
      }
      assert false;
    }
  }

  /** `main`: every `i` in 1..limit that `is_square` accepts, in order.
      The printed values are exactly the squares of 1, 2, ..., r where r
      is the integer square root of `limit`. */
  method PrintSquares(limit: int) returns (printed: seq<int>)
    requires limit < ROOT_BOUND * ROOT_BOUND
    ensures forall k :: 0 <= k < |printed| ==> printed[k] == Sq(k + 1)
    ensures Sq(|printed|) <= limit < Sq(|printed| + 1) || (limit < 1 && printed == [])
  {
    printed := [];
    var i := 1;
    while i <= limit
      invariant 1 <= i <= limit + 1 || (limit < 1 && i == 1)
      invariant forall k :: 0 <= k < |printed| ==> printed[k] == Sq(k + 1)
      invariant Sq(|printed|) < i <= Sq(|printed| + 1)
    {
      var r := |printed|;
      var s := IsSquare(i);
      if s == 1 {
        var k :| k >= 1 && Sq(k) == i;
        if k <= r {
          SqMonotone(k, r);
        } else if k > r + 1 {
          SqStrict(r + 1, k);
        }
        assert k == r + 1;
        printed := printed + [i];
      } else {
        assert !IsPerfectSquare(i);
        assert i != Sq(r + 1);
      }
      i := i + 1;
    }
  }

  /** With the limit 100 of `main`, the output is 1, 4, 9, ..., 100. */
  lemma MainPrints(printed: seq<int>)
    requires forall k :: 0 <= k < |printed| ==> printed[k] == Sq(k + 1)
    requires Sq(|printed|) <= 100 < Sq(|printed| + 1)
    ensures printed == [1, 4, 9, 16, 25, 36, 49, 64, 81, 100]
  {
    var n := |printed|;
    if n < 10 {
      SqMonotone(n + 1, 10);
    } else if n > 10 {
      SqMonotone(11, n);
    }
    assert n == 10;
  }
}
