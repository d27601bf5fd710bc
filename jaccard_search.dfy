/** benchmarkserver/jaccard_search.go: `combination`, the binomial
    coefficient computed with int64 arithmetic (its `processPairsSyntactic`
    and `QueryOrderAll` are `EmbSearch.Alignment.ProcessPairs` and
    `EmbSearch.QueryOrderAll` with kind Syntactic). */
module JaccardSearch {
  import opened Wrappers

  /** Go's int64 `*`: the exact product wrapped to two's complement */
  function Wrap(x: int): (r: Int64)
    ensures MinInt64 <= x <= MaxInt64 ==> r == x
    ensures (x - r) % TwoTo64 == 0
  {
    (x - MinInt64) % TwoTo64 + MinInt64
  }

  /** Go's int64 `/` by a positive divisor: truncates toward zero */
  function Quo(a: int, b: int): (q: int)
    requires b >= 1
    ensures a >= 0 ==> q == a / b && 0 <= q <= a
    ensures a < 0 ==> a <= q <= 0
  {
    if a >= 0 then DivBound(a, b); a / b else DivBound(-a, b); -((-a) / b)
  }

  lemma DivBound(a: nat, b: int)
    requires b >= 1
    ensures 0 <= a / b <= a
  {
    var q := a / b;
    if q >= 1 {
      MulAtLeast(b, q);
      assert b * q <= a;
      MulAtLeast(q, b);
    }
  }

  /** the binomial coefficient by Pascal's rule */
  function Binom(n: nat, k: nat): nat
  {
    if k == 0 then 1 else if n == 0 then 0 else Binom(n - 1, k - 1) + Binom(n - 1, k)
  }

  /** C(n, k) = 0 for k > n. */
  lemma {:induction false} BinomAbove(n: nat, k: nat)
    requires k > n
    ensures Binom(n, k) == 0
  {
    if n > 0 {
      BinomAbove(n - 1, k - 1);
      BinomAbove(n - 1, k);
    }
  }

  /** k C(n, k) = (n - k + 1) C(n, k - 1): each C(n, k) is the previous one
      times n - k + 1, divided by k. */
  lemma {:induction false} Absorb(n: nat, k: nat)
    requires 1 <= k <= n
    ensures k * Binom(n, k) == (n - k + 1) * Binom(n, k - 1)
    decreases n, 1
  {
    var a := Binom(n - 1, k - 1);
    AbsorbFirst(n, k);
    if k == 1 {
      assert Binom(n, 0) == 1 && a == 1;
    } else {
      var c := Binom(n - 1, k - 2);
      var m := n - k + 1;
      assert Binom(n, k - 1) == c + a;
      Absorb(n - 1, k - 1);
      assert (k - 1) * a == m * c;
      Distrib(m, c, a);
      Distrib(a, k - 1, m);
      assert m * Binom(n, k - 1) == m * c + m * a == (k - 1) * a + m * a == n * a;
    }
  }

  /** k C(n, k) = n C(n - 1, k - 1) */
  lemma {:induction false} AbsorbFirst(n: nat, k: nat)
    requires 1 <= k <= n
    ensures k * Binom(n, k) == n * Binom(n - 1, k - 1)
    decreases n, 0
  {
    var a, b := Binom(n - 1, k - 1), Binom(n - 1, k);
    assert Binom(n, k) == a + b;
    if k <= n - 1 {
      Absorb(n - 1, k);
    } else {
      BinomAbove(n - 1, k);
    }
    assert k * b == (n - k) * a;
    Distrib(k, a, b);
    Distrib(a, k, n - k);
  }

  lemma Distrib(x: int, y: int, z: int)
    ensures x * (y + z) == x * y + x * z
    ensures (y + z) * x == y * x + z * x
  {
  }

  /** Each step of `combination`'s loop divides exactly: with r = C(n, i - 1),
      r (n - i + 1) is divisible by i and the quotient is C(n, i). */
  lemma StepExact(n: nat, i: nat)
    requires 1 <= i <= n
    ensures (Binom(n, i - 1) * (n - i + 1)) % i == 0
    ensures (Binom(n, i - 1) * (n - i + 1)) / i == Binom(n, i)
  {
    Absorb(n, i);
    var p, c := Binom(n, i - 1) * (n - i + 1), Binom(n, i);
    assert p == c * i;
    DivExact(p, c, i);
  }

  lemma DivExact(p: int, c: int, d: int)
    requires d >= 1 && p == c * d
    ensures p % d == 0 && p / d == c
  {
    var q, m := p / d, p % d;
    assert d * q + m == p;
    assert d * (c - q) == m by { Distrib(d, c - q, q); }
    if c - q >= 1 {
      MulAtLeast(d, c - q);
    } else if c - q <= -1 {
      MulAtLeast(d, q - c);
    }
  }

  lemma MulAtLeast(d: int, e: int)
    requires d >= 1 && e >= 1
    ensures d * e >= d
  {
  }

  /** One loop step of `combination` without overflow: from C(n, i - 1) the
      wrapped product and truncating division reach C(n, i). */
  lemma ExactStep(n: nat, k: nat, i: nat, r: int)
    requires 1 <= i <= k <= n && NoOverflow(n, k) && r == Binom(n, i - 1)
    ensures Quo(Wrap(r * (n - i + 1)), i) == Binom(n, i)
  {
    StepExact(n, i);
    var p := r * (n - i + 1);
    assert p == Binom(n, i) * i;
    assert i * Binom(n, i) <= MaxInt64;
    assert 0 <= p <= MaxInt64;
    assert Wrap(p) == p;
  }

  /** no intermediate product r n of `combination(n, k)` exceeds int64 */
  predicate NoOverflow(n: nat, k: nat)
  {
    forall i :: 1 <= i <= k ==> i * Binom(n, i) <= MaxInt64
  }

  /** `combination(np, kp)`: 1 when kp is 0, 0 when kp > np, 1 when
      kp < 0 (the loop does not run), and otherwise C(np, kp) whenever no
      intermediate product overflows int64. */
  method Combination(np: Int64, kp: Int64) returns (r: Int64)
    ensures kp == 0 ==> r == 1
    ensures kp != 0 && kp > np ==> r == 0
    ensures kp < 0 && kp <= np ==> r == 1
    ensures 0 <= kp <= np && NoOverflow(np, kp) ==> r == Binom(np, kp)
  {
    if kp == 0 {
      return 1;
    }
    var k: Int64 := kp;
    var n: Int64 := np;
    r := 1;
    if k > n {
      return 0;
    }
    var i := 1;
    while i <= k
      invariant 1 <= i <= (if k >= 1 then k + 1 else 1)
      invariant n == np - (i - 1)
      invariant i == 1 ==> r == 1
      invariant k >= 1 && NoOverflow(np, k) ==> r == Binom(np, i - 1)
    {
      if k >= 1 && NoOverflow(np, k) {
        ExactStep(np, k, i, r);
      }
      r := Wrap(r * n);
      n := n - 1;
      r := Quo(r, i);
      i := i + 1;
    }
  }
}
