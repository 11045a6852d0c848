/** Division by a variable page size: the few non-linear facts the other modules need. */
module Arith {

  lemma MulMono(a: nat, b: nat, m: nat)
    requires a <= b
    ensures a * m <= b * m
  {
  }

  lemma PeelOne(n: nat, m: nat)
    requires 0 < n
    ensures n * m == (n - 1) * m + m
    ensures m <= n * m
  {
    MulMono(1, n, m);
  }

  lemma SameQuotient(q: nat, r: nat, q': nat, r': nat, m: nat)
    requires r < m && r' < m
    requires q * m + r == q' * m + r'
    ensures q == q' && r == r'
  {
    assert (q + 1) * m == q * m + m && (q' + 1) * m == q' * m + m;
    if q < q' {
      MulMono(q + 1, q', m);
    } else if q' < q {
      MulMono(q' + 1, q, m);
    }
  }

  lemma DivModUnique(x: nat, m: nat, q: nat, r: nat)
    requires 0 < m && r < m
    requires x == q * m + r
    ensures x / m == q && x % m == r
  {
    SameQuotient(q, r, x / m, x % m, m);
  }

  lemma DivMono(a: nat, b: nat, m: nat)
    requires 0 < m && a <= b
    ensures a / m <= b / m
  {
    if a / m > b / m {
      MulMono(b / m + 1, a / m, m);
    }
  }

  /** Adding less than one period moves the phase forward, wrapping at most once. */
  lemma ModAdd(x: nat, i: nat, m: nat)
    requires 0 < m && i < m
    ensures (x + i) % m == (if x % m + i < m then x % m + i else x % m + i - m)
    ensures (x + i) / m == (if x % m + i < m then x / m else x / m + 1)
  {
    var q, r := x / m, x % m;
    if r + i < m {
      DivModUnique(x + i, m, q, r + i);
    } else {
      assert (q + 1) * m == q * m + m;
      DivModUnique(x + i, m, q + 1, r + i - m);
    }
  }

  /** The number of pages of size `m` that hold `n` bytes. */
  function CeilDiv(n: nat, m: nat): nat
    requires 0 < m
  {
    (n + m - 1) / m
  }

  lemma CeilDivIs(n: nat, m: nat, k: nat)
    requires 0 < m
    requires k == 0 ==> n == 0
    requires k > 0 ==> (k - 1) * m < n <= k * m
    ensures CeilDiv(n, m) == k
  {
    if k == 0 {
      DivModUnique(m - 1, m, 0, m - 1);
    } else {
      var r := n - (k - 1) * m - 1;
      assert k * m == (k - 1) * m + m;
      DivModUnique(n + m - 1, m, k, r);
    }
  }

  lemma CeilDivBounds(n: nat, m: nat)
    requires 0 < m
    ensures n <= CeilDiv(n, m) * m < n + m
    ensures n == 0 ==> CeilDiv(n, m) == 0
    ensures n > 0 ==> CeilDiv(n, m) > 0 && (CeilDiv(n, m) - 1) * m < n
  {
    var k := CeilDiv(n, m);
    assert n + m - 1 == k * m + (n + m - 1) % m;
    if n == 0 {
      DivModUnique(m - 1, m, 0, m - 1);
    } else {
      if k > 0 {
        assert k * m == (k - 1) * m + m;
      }
    }
  }

  lemma CeilDivMono(a: nat, b: nat, m: nat)
    requires 0 < m && a <= b
    ensures CeilDiv(a, m) <= CeilDiv(b, m)
  {
    DivMono(a + m - 1, b + m - 1, m);
  }

  /** `n` whole pages of size `m` fit into `len` bytes when `n` is at most the quotient. */
  lemma WholePagesFit(n: nat, len: nat, m: nat)
    requires 0 < m && n <= len / m
    ensures n * m <= len
    ensures n == len / m ==> len - n * m < m
  {
    MulMono(n, len / m, m);
  }

  lemma MultipleMod(n: nat, m: nat)
    requires 0 < m
    ensures n * m % m == 0
  {
    DivModUnique(n * m, m, n, 0);
  }

  /** Stepping to the end of the page is stepping to a multiple of the page size. */
  lemma AlignUp(x: nat, m: nat)
    requires 0 < m
    ensures (x + (m - x % m)) % m == 0
  {
    assert (x / m + 1) * m == x / m * m + m;
    DivModUnique(x + (m - x % m), m, x / m + 1, 0);
  }

  lemma AddMultiple(x: nat, n: nat, m: nat)
    requires 0 < m && x % m == 0
    ensures (x + n * m) % m == 0
    ensures (x + n * m) / m == x / m + n
  {
    assert (x / m + n) * m == x / m * m + n * m;
    DivModUnique(x + n * m, m, x / m + n, 0);
  }
}
