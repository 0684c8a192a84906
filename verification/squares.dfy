/** Absolute values, used by both planners, and integer squares for the
    pixel planner's distance tests.

    `Sq` is defined by recursion rather than as `n * n`, so a squared
    distance is a value the verifier reasons about through the few facts
    proved here (it grows with the absolute value, it is symmetric, and it is
    `n * n`) instead of through nonlinear arithmetic. */
module Squares {

  function Abs(n: int): nat
  {
    if n < 0 then -n else n
  }

  /** m * m, built up as (m - 1)^2 + 2m - 1. */
  function NatSq(m: nat): nat
  {
    if m == 0 then 0 else NatSq(m - 1) + 2 * m - 1
  }

  function Sq(n: int): nat
  {
    NatSq(Abs(n))
  }

  lemma {:induction false} NatSqIsProduct(m: nat)
    ensures NatSq(m) == m * m
  {
    if m > 0 {
      NatSqIsProduct(m - 1);
      assert m * m == (m - 1) * (m - 1) + 2 * m - 1;
    }
  }

  /** The recursive square is the product. */
  lemma SqIsProduct(n: int)
    ensures Sq(n) == n * n
  {
    NatSqIsProduct(Abs(n));
    if n < 0 {
      assert Abs(n) * Abs(n) == (-n) * (-n) == n * n;
    }
  }

  lemma {:induction false} NatSqMono(a: nat, b: nat)
    requires a <= b
    ensures NatSq(a) <= NatSq(b)
    ensures a < b ==> NatSq(a) < NatSq(b)
    decreases b - a
  {
    if a < b {
      NatSqMono(a, b - 1);
    }
  }

  /** Squares grow with the absolute value, strictly when it grows strictly. */
  lemma SqMono(a: int, b: int)
    requires Abs(a) <= Abs(b)
    ensures Sq(a) <= Sq(b)
    ensures Abs(a) < Abs(b) ==> Sq(a) < Sq(b)
  {
    NatSqMono(Abs(a), Abs(b));
  }

  /** A smaller square has the smaller absolute value. */
  lemma SqOrder(a: int, b: int)
    requires Sq(a) < Sq(b)
    ensures Abs(a) < Abs(b)
  {
    if Abs(b) <= Abs(a) {
      SqMono(b, a);
    }
  }

  lemma SqSym(a: int, b: int)
    ensures Sq(a - b) == Sq(b - a)
  {
    assert Abs(a - b) == Abs(b - a);
  }

  /** Only zero squares to zero; every other square is at least one. */
  lemma SqZero(n: int)
    ensures Sq(n) == 0 <==> n == 0
    ensures n != 0 ==> Sq(n) >= 1
  {
  }

  /** The squares of 0 through 9. */
  lemma SmallSquares(k: int)
    requires 0 <= k <= 9
    ensures Sq(k) == [0, 1, 4, 9, 16, 25, 36, 49, 64, 81][k]
  {
    SqIsProduct(k);
  }
}
