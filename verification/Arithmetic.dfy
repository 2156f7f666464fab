/** Quotients and residues for an arbitrary divisor. */
module Arithmetic {
  lemma Monotone(m: nat, a: nat, b: nat)
    requires a <= b
    ensures m * a <= m * b
  {
  }

  lemma Divide(m: nat, x: nat, q: nat, r: nat)
    requires m >= 1 && q == x / m && r == x % m
    ensures x == m * q + r && r < m
  {
  }

  lemma Residue(m: nat, q: nat, r: nat)
    requires r < m
    ensures (m * q + r) % m == r
  {
    var y := m * q + r;
    var q' := y / m;
    assert m * (q - q') == y % m - r;
    if q > q' {
      Monotone(m, 1, q - q');
    } else if q < q' {
      Monotone(m, 1, q' - q);
    }
  }

  lemma Quotient(m: nat, q: nat, r: nat)
    requires r < m
    ensures (m * q + r) / m == q && (m * q + r) % m == r
  {
    Residue(m, q, r);
    var q' := (m * q + r) / m;
    assert m * (q - q') == 0;
  }

  lemma ResidueShift(m: nat, k: nat, x: nat)
    requires m >= 1
    ensures (m * k + x) % m == x % m
  {
    assert m * k + x == m * (k + x / m) + x % m;
    Residue(m, k + x / m, x % m);
  }
}
