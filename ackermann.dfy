// The mathematical Ackermann function that both the memoized reference
// computation and the build-system tasks compute, with the facts about it
// that the rest of the model relies on.

module Ackermann {

  /** The Ackermann function, by the three cases of the reference computation.
      Its value always exceeds its second argument, which is why 0 can serve
      as the "not yet computed" mark of the memo table and why a task's
      recursive results are never 0. */
  function Ack(m: nat, n: nat): (r: nat)
    ensures r >= n + 1
    decreases m, n
  {
    if m == 0 then n + 1
    else if n == 0 then Ack(m - 1, 1)
    else Ack(m - 1, Ack(m, n - 1))
  }

  /** Ack is strictly increasing in its second argument. */
  lemma AckStep(m: nat, n: nat)
    ensures Ack(m, n) < Ack(m, n + 1)
  {
  }

  lemma {:induction false} AckMonotone(m: nat, n1: nat, n2: nat)
    requires n1 <= n2
    ensures Ack(m, n1) <= Ack(m, n2)
    decreases n2 - n1
  {
    if n1 < n2 {
      AckStep(m, n1);
      AckMonotone(m, n1 + 1, n2);
    }
  }

  function Pow2(k: nat): (r: nat)
    ensures r >= 1
  {
    if k == 0 then 1 else 2 * Pow2(k - 1)
  }

  lemma {:induction false} Pow2AboveExponent(k: nat)
    ensures Pow2(k) >= k + 1
  {
    if k > 0 {
      Pow2AboveExponent(k - 1);
    }
  }

  lemma {:induction false} Pow2Monotone(a: nat, b: nat)
    requires a <= b
    ensures Pow2(a) <= Pow2(b)
    decreases b
  {
    if a < b {
      Pow2Monotone(a, b - 1);
    }
  }

  /** Closed forms of the rows 1, 2 and 3, from which the rule bounds of the
      build command are derived. */
  lemma {:induction false} AckRow1(n: nat)
    ensures Ack(1, n) == n + 2
  {
    if n > 0 {
      AckRow1(n - 1);
    }
  }

  lemma {:induction false} AckRow2(n: nat)
    ensures Ack(2, n) == 2 * n + 3
  {
    if n == 0 {
      AckRow1(1);
    } else {
      AckRow2(n - 1);
      AckRow1(2 * n + 1);
    }
  }

  lemma {:induction false} AckRow3(n: nat)
    ensures Ack(3, n) == Pow2(n + 3) - 3
  {
    if n == 0 {
      AckRow2(1);
      assert Pow2(3) == 8;
    } else {
      AckRow3(n - 1);
      AckRow2(Pow2(n + 2) - 3);
    }
  }

  /** The two powers the 32-bit bounds of the build command rest on. */
  lemma Pow2Thirty()
    ensures Pow2(30) == 0x4000_0000 && Pow2(28) == 0x1000_0000
  {
    assert Pow2(10) == 1024;
    Pow2Sum(10, 10);
    assert Pow2(20) == 1024 * 1024;
    Pow2Sum(20, 10);
    assert Pow2(30) == 4 * Pow2(28);
  }

  lemma {:induction false} Pow2Sum(a: nat, b: nat)
    ensures Pow2(a + b) == Pow2(a) * Pow2(b)
    decreases b
  {
    if b > 0 {
      Pow2Sum(a, b - 1);
      assert Pow2(a + b) == 2 * Pow2(a + b - 1);
    }
  }
}
