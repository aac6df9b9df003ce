/** Division facts the positional proofs share. */
module Division {
  lemma SmallMultiple(d: int, k: int)
    requires -d < d * k < d
    ensures k == 0
  {
  }

  lemma QuotientIs(v: nat, d: nat, q: nat, r: nat)
    requires v == d * q + r && r < d
    ensures v / d == q
  {
    var k := v / d - q;
    assert d * k == r - v % d;
    SmallMultiple(d, k);
  }

  lemma Multiple(d: nat, k: nat)
    requires d > 0
    ensures (d * k) % d == 0
  {
    QuotientIs(d * k, d, k, 0);
  }

  lemma Spread(p: nat, q: nat, k: nat, r: nat)
    ensures p * (q * k + r) == (p * q) * k + p * r
  {
    assert p * (q * k) == (p * q) * k;
  }

  lemma BelowProduct(p: nat, q: nat, r: nat, s: nat)
    requires r < q && s < p
    ensures p * r + s < p * q
  {
    assert p * r <= p * (q - 1);
  }

  lemma Parts(v: nat, p: nat) returns (h: nat, s: nat)
    requires p > 0
    ensures h == v / p && v == p * h + s && s < p
  {
    h, s := v / p, v % p;
  }

  lemma TwoSteps(p: nat, q: nat, h: nat, k: nat, r: nat, s: nat)
    requires h == q * k + r && r < q && s < p
    ensures p * q > 0 && (p * h + s) / (p * q) == k
  {
    Spread(p, q, k, r);
    BelowProduct(p, q, r, s);
    QuotientIs(p * h + s, p * q, k, p * r + s);
  }

  /** Dividing by a product divides twice. */
  lemma DivideTwice(v: nat, p: nat, q: nat)
    requires p > 0 && q > 0
    ensures p * q > 0 && v / (p * q) == v / p / q
  {
    var h, s := Parts(v, p);
    var k, r := Parts(h, q);
    TwoSteps(p, q, h, k, r, s);
  }
}
