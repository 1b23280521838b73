/** Facts about integer division and remainder used by the ring and quadrant arithmetic. */
module Arith {

  lemma {:induction false} MulAtLeast(a: nat, n: nat)
    requires 1 <= a
    ensures n <= a * n
  {
    if a > 1 {
      MulAtLeast(a - 1, n);
      assert a * n == (a - 1) * n + n;
    }
  }

  /** Quotient and remainder are the only ones with `x == q * n + r` and `0 <= r < n`. */
  lemma DivModUnique(x: int, n: int, q: int, r: int)
    requires 0 < n && 0 <= r < n && x == q * n + r
    ensures x % n == r && x / n == q
  {
    var q', r' := x / n, x % n;
    assert x == q' * n + r';
    assert (q - q') * n == r' - r;
    if q > q' {
      MulAtLeast(q - q', n);
    } else if q < q' {
      MulAtLeast(q' - q, n);
    }
  }

  /** Reducing first and adding later lands on the same place of a ring of `n` places. */
  lemma ModShift(a: nat, m: nat, n: nat)
    requires 0 < n
    ensures (a % n + m) % n == (a + m) % n
  {
    var q, r := a / n, a % n;
    var q2, r2 := (r + m) / n, (r + m) % n;
    assert a + m == (q + q2) * n + r2;
    DivModUnique(a + m, n, q + q2, r2);
  }

  /** The place after `i` on a ring of `n` places. */
  function Succ(i: nat, n: nat): (j: nat)
    requires i < n
    ensures j < n
  {
    if i + 1 < n then i + 1 else 0
  }

  /** The place before `i` on a ring of `n` places. */
  function Pred(i: nat, n: nat): (j: nat)
    requires i < n
    ensures j < n
  {
    if i == 0 then n - 1 else i - 1
  }

  /** `k` steps forward from `i` on a ring of `n` places. */
  function Advance(i: nat, k: nat, n: nat): (j: nat)
    requires i < n
    ensures j < n
    decreases k
  {
    if k == 0 then i else Advance(Succ(i, n), k - 1, n)
  }

  /** One step forward is addition of one modulo `n`. */
  lemma SuccIsMod(i: nat, n: nat)
    requires i < n
    ensures Succ(i, n) == (i + 1) % n
  {
    if i + 1 < n {
      DivModUnique(i + 1, n, 0, i + 1);
    } else {
      DivModUnique(i + 1, n, 1, 0);
    }
  }

  /** One step back is subtraction of one modulo `n`. */
  lemma PredIsMod(i: nat, n: nat)
    requires i < n
    ensures Pred(i, n) == (i + n - 1) % n
  {
    if i == 0 {
      DivModUnique(i + n - 1, n, 0, n - 1);
    } else {
      DivModUnique(i + n - 1, n, 1, i - 1);
    }
  }

  /** Stepping back undoes stepping forward, and the other way round. */
  lemma SuccPredInverse(i: nat, n: nat)
    requires i < n
    ensures Pred(Succ(i, n), n) == i
    ensures Succ(Pred(i, n), n) == i
  {
  }

  /** `k` steps forward is addition of `k` modulo `n`. */
  lemma {:induction false} AdvanceIsMod(i: nat, k: nat, n: nat)
    requires i < n
    ensures Advance(i, k, n) == (i + k) % n
    decreases k
  {
    if k == 0 {
      DivModUnique(i, n, 0, i);
    } else {
      SuccIsMod(i, n);
      AdvanceIsMod(Succ(i, n), k - 1, n);
      ModShift(i + 1, k - 1, n);
    }
  }

  /** `n` steps forward on a ring of `n` places return to the start. */
  lemma FullTurn(i: nat, n: nat)
    requires i < n
    ensures Advance(i, n, n) == i
  {
    AdvanceIsMod(i, n, n);
    DivModUnique(i + n, n, 1, i);
  }
}
