// Quotient and remainder by a divisor that is not a constant.

module Arithmetic {
  lemma Distribute(q: int, d: nat, n: nat)
    requires n > 0
    ensures (q + 1 + d) * n >= q * n + n
  {
    assert (q + 1 + d) * n == q * n + (1 + d) * n;
    assert (1 + d) * n == n + d * n;
    assert d * n >= 0;
  }

  lemma Unique(n: nat, q: nat, r: nat, q': nat, r': nat)
    requires r < n && r' < n && q * n + r == q' * n + r'
    ensures q == q' && r == r'
  {
    if q < q' {
      Distribute(q, q' - q - 1, n);
    } else if q' < q {
      Distribute(q', q - q' - 1, n);
    }
  }

  /** Completed rounds after `t` steps of a cycle of length `n`. */
  function Rounds(t: nat, n: nat): nat
    requires n > 0
  {
    t / n
  }

  /** Steps into the current round. */
  function Phase(t: nat, n: nat): (r: nat)
    requires n > 0
    ensures r < n
  {
    t % n
  }

  lemma RoundsPhase(t: nat, n: nat)
    requires n > 0
    ensures t == Rounds(t, n) * n + Phase(t, n)
  {
  }

  lemma DivUnique(t: nat, n: nat, q: nat, r: nat)
    requires r < n && t == q * n + r
    ensures Rounds(t, n) == q && Phase(t, n) == r
  {
    hide Rounds, Phase;
    RoundsPhase(t, n);
    Unique(n, q, r, Rounds(t, n), Phase(t, n));
  }

  lemma StepRounds(t: nat, n: nat)
    requires n > 0
    ensures Phase(t + 1, n) == if Phase(t, n) + 1 == n then 0 else Phase(t, n) + 1
    ensures Rounds(t + 1, n) == if Phase(t, n) + 1 == n then Rounds(t, n) + 1 else Rounds(t, n)
  {
    hide Rounds, Phase;
    RoundsPhase(t, n);
    var q, r := Rounds(t, n), Phase(t, n);
    if r + 1 == n {
      assert (q + 1) * n == q * n + n;
      DivUnique(t + 1, n, q + 1, 0);
    } else {
      DivUnique(t + 1, n, q, r + 1);
    }
  }

  lemma Within(t: nat, n: nat)
    requires t < n
    ensures Phase(t, n) == t && Rounds(t, n) == 0
  {
    hide Rounds, Phase;
    DivUnique(t, n, 0, t);
  }
}
