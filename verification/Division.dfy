/** Facts about quotients and remainders that the solver needs spelled out. */
module Division {

  lemma Split(h: nat, m: nat) returns (q: nat, r: nat)
    requires 0 < m
    ensures h == m * q + r && r < m && r == h % m && q == h / m
  {
    q, r := h / m, h % m;
  }

  lemma UniqueRemainder(h: nat, n: nat, q: nat, r: nat)
    requires r < n && h == n * q + r
    ensures h % n == r
  {
    var d := h / n - q;
    assert n * d == r - h % n;
  }

  lemma UniqueQuotient(h: nat, n: nat, q: nat, r: nat)
    requires r < n && h == n * q + r
    ensures h / n == q
  {
    UniqueRemainder(h, n, q, r);
    var q', r' := Split(h, n);
    SameFactor(n, q', q);
  }

  lemma SameFactor(n: nat, q: nat, q': nat)
    requires 0 < n && n * q == n * q'
    ensures q == q'
  {
    assert n * (q' - q) == 0;
  }

  lemma ModOnce(k: nat, m: nat)
    requires 0 < m && k < 2 * m
    ensures k % m == if k < m then k else k - m
  {
    if k < m {
      UniqueRemainder(k, m, 0, k);
    } else {
      UniqueRemainder(k, m, 1, k - m);
    }
  }

  /** Counting up modulo `n`. */
  lemma SuccessorMod(k: nat, n: nat)
    requires 0 < n
    ensures (k % n + 1) % n == (k + 1) % n
    ensures (k + 1) % n == if k % n + 1 == n then 0 else k % n + 1
    ensures (k + 1) / n == if k % n + 1 == n then k / n + 1 else k / n
  {
    var q, r := Split(k, n);
    if r + 1 == n {
      Next(k, n, q, r);
      UniqueRemainder(r + 1, n, 1, 0);
    } else {
      UniqueRemainder(k + 1, n, q, r + 1);
      UniqueQuotient(k + 1, n, q, r + 1);
      UniqueRemainder(r + 1, n, 0, r + 1);
    }
  }

  lemma Next(k: nat, n: nat, q: nat, r: nat)
    requires 0 < n && r + 1 == n && k == n * q + r
    ensures (k + 1) % n == 0 && (k + 1) / n == q + 1
  {
    assert k + 1 == n * (q + 1);
    UniqueRemainder(k + 1, n, q + 1, 0);
    UniqueQuotient(k + 1, n, q + 1, 0);
  }

  lemma ModOfDouble(h: nat, m: nat, n: nat)
    requires 0 < n && m == 2 * n
    ensures (h % m) % n == h % n
  {
    var q, r := Split(h, m);
    SplitByDouble(h, m, n, q, r);
  }

  lemma SplitByDouble(h: nat, m: nat, n: nat, q: nat, r: nat)
    requires m == 2 * n && h == m * q + r && r < m
    ensures r % n == h % n
  {
    assert m * q == n * (2 * q);
    ModOnce(r, n);
    if r < n {
      UniqueRemainder(h, n, 2 * q, r);
    } else {
      assert n * (2 * q) + n == n * (2 * q + 1);
      UniqueRemainder(h, n, 2 * q + 1, r - n);
    }
  }
}
