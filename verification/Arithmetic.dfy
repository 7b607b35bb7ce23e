/** The few facts about division by a symbolic positive number that the models need. */
module Arithmetic {

  lemma QuotientUnique(p: int, q: int, r: int)
    requires 0 <= r < p
    ensures (p * q + r) / p == q && (p * q + r) % p == r
  {
    var d, m := (p * q + r) / p, (p * q + r) % p;
    assert p * (q - d) == m - r;
    assert q - d >= 1 ==> p * (q - d) >= p;
    assert q - d <= -1 ==> p * (q - d) <= -p;
  }

  lemma ShiftQuotient(i: int, p: int, k: int)
    requires p > 0
    ensures (i + p * k) / p == i / p + k && (i + p * k) % p == i % p
  {
    assert p * (i / p + k) == p * (i / p) + p * k;
    QuotientUnique(p, i / p + k, i % p);
  }
}
