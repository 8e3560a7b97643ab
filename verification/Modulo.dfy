/** Remainders by a variable divisor. */
module Modulo {

  lemma MulAtLeast(n: nat, k: int)
    requires k >= 1
    ensures n * k >= n
  {
    assert n * k == n * (k - 1) + n;
  }

  /** Numbers congruent modulo n lie at least n apart. */
  lemma CongruentApart(a: nat, b: nat, n: nat)
    requires n > 0 && a < b && a % n == b % n
    ensures b - a >= n
  {
    var qa, qb := a / n, b / n;
    assert b - a == n * qb - n * qa == n * (qb - qa);
    if qb - qa >= 1 {
      MulAtLeast(n, qb - qa);
    } else {
      MulAtLeast(n, 1 + qa - qb);
    }
  }

  /** Shifting by n changes nothing modulo n. */
  lemma ShiftMod(m: nat, n: nat)
    requires n > 0
    ensures (m + n) % n == m % n
  {
    var d := (m + n) / n - m / n;
    assert n * d == n * ((m + n) / n) - n * (m / n);
    assert n * d == n + m % n - (m + n) % n;
    if d >= 2 {
      MulAtLeast(n, d - 1);
    } else if d <= 0 {
      MulAtLeast(n, 1 - d);
    }
  }

  lemma NextMod(m: nat, n: nat)
    requires n > 0
    ensures (m + 1) % n == if m % n + 1 == n then 0 else m % n + 1
  {
    var d := (m + 1) / n - m / n;
    assert n * d == n * ((m + 1) / n) - n * (m / n);
    if d >= 2 {
      MulAtLeast(n, d - 1);
    } else if d <= -1 {
      MulAtLeast(n, -d);
    }
  }

  /** The remainder under a name, so that proofs can hide it. */
  function Mod(m: nat, n: nat): nat
    requires n > 0
  {
    m % n
  }

  lemma ModStep(m: nat, n: nat)
    requires n > 0
    ensures Mod(0, n) == 0 && Mod(m + 1, n) == if Mod(m, n) + 1 == n then 0 else Mod(m, n) + 1
  {
    NextMod(m, n);
  }
}
