/** The facts about integer division that positional notations rest on. */
module Division {

  lemma MultipleAtLeast(k: nat, m: nat)
    requires k >= 1
    ensures k * m >= m
  {
  }

  lemma Quotient(v: nat, m: nat, a: nat, r: nat)
    requires m > 0 && v == a * m + r && r < m
    ensures v / m == a && v % m == r
  {
    var q, t := v / m, v % m;
    assert q * m + t == a * m + r;
    if q < a {
      MultipleAtLeast(a - q, m);
    } else if q > a {
      MultipleAtLeast(q - a, m);
    }
  }

  lemma DivTwice(v: nat, m: nat, p: nat)
    requires m > 0 && p > 0
    ensures m * p > 0
    ensures (v / m) / p == v / (m * p)
  {
    var q, r := v / m, v % m;
    var a, b := q / p, q % p;
    assert v == m * (a * p + b) + r;
    assert m * (a * p + b) == a * (m * p) + m * b;
    MultipleAtLeast(p - b, m);
    assert m * b + r < m * p;
    Quotient(v, m * p, a, m * b + r);
  }
}
