/** Byte offsets, the cluster they fall into and the offset inside it. Quotient, remainder and product are
    defined by repeated subtraction and addition, which keeps the proofs about them linear. */
module Offsets {

  /** `p / n`, the number of the cluster of size `n` that holds byte `p`. */
  function Index(p: nat, n: nat): nat
    requires n > 0
  {
    if p < n then 0 else 1 + Index(p - n, n)
  }

  /** `p % n`, the offset of byte `p` inside its cluster. */
  function Rest(p: nat, n: nat): (r: nat)
    requires n > 0
    ensures r < n
  {
    if p < n then p else Rest(p - n, n)
  }

  /** `k * n`, the first byte of cluster number `k`. */
  function Start(k: nat, n: nat): nat {
    if k == 0 then 0 else Start(k - 1, n) + n
  }

  lemma {:induction false} StartIsProduct(k: nat, n: nat)
    ensures Start(k, n) == k * n
  {
    if k > 0 {
      StartIsProduct(k - 1, n);
    }
  }

  lemma {:induction false} IndexIsQuotient(p: nat, n: nat)
    requires n > 0
    ensures Index(p, n) == p / n && Rest(p, n) == p % n
  {
    if p >= n {
      IndexIsQuotient(p - n, n);
      QuotientStep(p, n);
    }
  }

  lemma QuotientStep(p: nat, n: nat)
    requires 0 < n <= p
    ensures p / n == 1 + (p - n) / n && p % n == (p - n) % n
  {
    var q, r := (p - n) / n, (p - n) % n;
    assert p == q * n + n + r;
    QuotientUnique(p, q, r, n);
  }

  lemma QuotientUnique(p: nat, q: nat, r: nat, n: nat)
    requires r < n && p == q * n + n + r
    ensures p / n == q + 1 && p % n == r
  {
    var q', r' := p / n, p % n;
    assert p == q' * n + r' && 0 <= r' < n;
    var gap := q' - (q + 1);
    assert gap * n == r - r' by {
      assert gap * n == q' * n - q * n - n;
    }
    assert gap >= 1 ==> gap * n >= n;
    assert gap <= -1 ==> gap * n + n <= 0;
  }

  lemma {:induction false} Recompose(p: nat, n: nat)
    requires n > 0
    ensures p == Start(Index(p, n), n) + Rest(p, n)
  {
    if p >= n {
      Recompose(p - n, n);
    }
  }

  lemma {:induction false} Decompose(k: nat, r: nat, n: nat)
    requires r < n
    ensures Index(Start(k, n) + r, n) == k && Rest(Start(k, n) + r, n) == r
  {
    if k > 0 {
      Decompose(k - 1, r, n);
    }
  }

  /** Moving on by `d` bytes without passing the end of the cluster. */
  lemma {:induction false} Advance(p: nat, d: nat, n: nat)
    requires n > 0 && Rest(p, n) + d <= n
    ensures Rest(p, n) + d < n ==> Index(p + d, n) == Index(p, n) && Rest(p + d, n) == Rest(p, n) + d
    ensures Rest(p, n) + d == n ==> Index(p + d, n) == Index(p, n) + 1 && Rest(p + d, n) == 0
  {
    if p >= n {
      Advance(p - n, d, n);
    }
  }

  /** `p` lies in the first `k` clusters exactly if its cluster number is below `k`. */
  lemma {:induction false} InFirst(p: nat, k: nat, n: nat)
    requires n > 0
    ensures p < Start(k, n) <==> Index(p, n) < k
  {
    if k > 0 && p >= n {
      InFirst(p - n, k - 1, n);
    }
  }

  /** Offsets that agree inside their clusters agree after moving on. */
  lemma SameRest(p: nat, q: nat, m: nat, n: nat)
    requires n > 0 && Rest(p, n) == Rest(q, n)
    ensures Rest(p + m, n) == Rest(q + m, n)
  {
    Recompose(p, n);
    Recompose(q, n);
    RestOfSum(Index(p, n), Rest(p, n) + m, n);
    RestOfSum(Index(q, n), Rest(p, n) + m, n);
  }

  lemma {:induction false} RestOfSum(k: nat, m: nat, n: nat)
    requires n > 0
    ensures Rest(Start(k, n) + m, n) == Rest(m, n)
  {
    if k > 0 {
      RestOfSum(k - 1, m, n);
    }
  }

  /** Offset `q` relative to `p`, when `m` bytes from `p` on stay inside the cluster of `p`. */
  lemma Within(p: nat, m: nat, q: nat, n: nat)
    requires n > 0 && Rest(p, n) + m <= n
    ensures Index(p, n) == Index(q, n) ==> q - p == Rest(q, n) - Rest(p, n)
    ensures Index(p, n) != Index(q, n) ==> !(p <= q < p + m)
  {
    Recompose(p, n);
    Recompose(q, n);
    if p <= q < p + m {
      Advance(p, q - p, n);
    }
  }
}
