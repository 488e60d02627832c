/** Facts about numbers that several components rely on: unsigned 32-bit wrap-around, division, and
    the set of the numbers below a bound. */
module Numbering {
  const UINT_RANGE: nat := 0x1_0000_0000

  /** A quotient and a remainder determine the division. */
  lemma DivModUnique(a: nat, s: nat, q: nat, m: nat)
    requires a == s * q + m && m < s
    ensures a / s == q && a % s == m
  {
    AtLeast(s, a / s - q);
    assert s * (a / s - q) == m - a % s;
  }

  lemma AtLeast(s: nat, d: int)
    ensures d > 0 ==> s * d >= s
    ensures d < 0 ==> s * d <= -(s as int)
  {
  }

  lemma DivMod(a: nat, s: nat)
    requires s > 0
    ensures a == s * (a / s) + a % s && a % s < s
  {
  }

  lemma Commutes(a: int, b: int)
    ensures a * b == b * a
  {
  }

  lemma Distributes(a: int, b: int, c: int)
    ensures (a + b) * c == a * c + b * c
  {
  }

  lemma ScaleMonotone(x: int, y: int, k: nat)
    requires x <= y
    ensures x * k <= y * k
  {
  }

  ghost predicate Below(i: nat, n: nat) { i < n }

  ghost function Numbers(n: nat): set<nat> {
    set i: nat | i < n && Below(i, n)
  }

  lemma {:induction false} NumbersBelow(n: nat)
    ensures |Numbers(n)| == n
  {
    if n > 0 {
      NumbersBelow(n - 1);
      assert Numbers(n) == Numbers(n - 1) + {n - 1};
    } else {
      assert Numbers(0) == {};
    }
  }
}
