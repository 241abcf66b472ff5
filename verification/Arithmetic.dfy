/** Division with remainder for variable divisors. */
module Arithmetic {
  /** Quotient and remainder are unique. */
  lemma DivModUnique(x: int, n: nat, q: int, r: nat)
    requires n > 0 && x == q * n + r && r < n
    ensures x / n == q && x % n == r
  {
    var p, s := x / n, x % n;
    assert x == p * n + s;
    assert (p - q) * n == r - s;
    if p > q {
      MultipleAtLeast(p - q, n);
    } else if p < q {
      MultipleAtLeast(q - p, n);
    }
  }

  lemma MultipleAtLeast(k: nat, n: nat)
    requires k > 0
    ensures k * n >= n
  {}

  lemma AddMultiple(a: nat, q: nat, n: nat)
    requires n > 0
    ensures (a + q * n) % n == a % n && (a + q * n) / n == a / n + q
  {
    assert a + q * n == (a / n + q) * n + a % n by {
      assert (a / n + q) * n == (a / n) * n + q * n;
    }
    DivModUnique(a + q * n, n, a / n + q, a % n);
  }

  lemma SubtractModulus(x: nat, n: nat)
    requires x >= n > 0
    ensures (x - n) % n == x % n
  {
    AddMultiple(x - n, 1, n);
  }

  lemma OneMore(q: nat, x: nat)
    ensures q * x + x == (q + 1) * x
  {}

  /** The remainder of n as a function of its own, so that proofs need not look into the division. */
  function Residue(n: nat, m: int): (r: int)
    requires 0 < m
    ensures 0 <= r < m
  {
    n % m
  }

  lemma ResidueOfSmall(n: nat, m: int)
    requires n < m
    ensures Residue(n, m) == n
  {
    DivModUnique(n, m, 0, n);
  }

  lemma NextResidue(n: nat, m: int)
    requires 0 < m
    ensures Residue(n + 1, m) == if Residue(n, m) + 1 == m then 0 else Residue(n, m) + 1
  {
    var q, r := n / m, n % m;
    if r + 1 < m {
      DivModUnique(n + 1, m, q, r + 1);
    } else {
      DivModUnique(n + 1, m, q + 1, 0);
    }
  }

  /** Going on by less than m wraps at most once. */
  lemma ResidueAhead(n: nat, gap: nat, m: int)
    requires gap < m
    ensures Residue(n + gap, m) == if Residue(n, m) + gap < m then Residue(n, m) + gap else Residue(n, m) + gap - m
  {
    var q, r := n / m, n % m;
    if r + gap < m {
      DivModUnique(n + gap, m, q, r + gap);
    } else {
      DivModUnique(n + gap, m, q + 1, r + gap - m);
    }
  }

  /** Within m consecutive numbers, equal residues mean equal numbers. */
  lemma ResidueUnique(m: int, base: int, a: nat, b: nat)
    requires 0 < m && base <= a < base + m && base <= b < base + m && Residue(a, m) == Residue(b, m)
    ensures a == b
  {
    var p, q := a / m, b / m;
    assert a - b == (p - q) * m;
    if p > q {
      MultipleAtLeast(p - q, m);
    } else if q > p {
      MultipleAtLeast(q - p, m);
    }
  }
}
