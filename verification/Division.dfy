/** Quotients and remainders. */
module Division {

  /** A quotient and a remainder determine the number, */
  lemma Locates(i: nat, local: nat, size: nat)
    requires local < size
    ensures (i * size + local) / size == i && (i * size + local) % size == local
  {
    var p := i * size + local;
    var q, r := p / size, p % size;
    assert q * size + r == i * size + local;
    if q < i {
      Multiples(q + 1, i, size);
    } else if i < q {
      Multiples(i + 1, q, size);
    }
  }

  lemma Multiples(a: nat, b: nat, size: nat)
    requires a <= b
    ensures a * size <= b * size && (a + 1) * size == a * size + size
  {
  }

  /** and the number determines them. */
  lemma Splits(p: nat, size: nat)
    requires size > 0
    ensures p == p / size * size + p % size && p % size < size
  {
  }

  lemma RestFits(r: nat, d: nat, m: nat, rest: nat)
    requires r < m && rest < d
    ensures r * d + rest < d * m
  {
    Multiples(r + 1, m, d);
    Multiples(r, r, d);
  }

  lemma Regroups(q: nat, r: nat, d: nat, m: nat, rest: nat)
    ensures (q * m + r) * d + rest == q * (d * m) + (r * d + rest)
  {
  }

  lemma QuotientOf(n: nat, t: nat, q: nat, r: nat, d: nat, m: nat, rest: nat)
    requires n == t * d + rest && rest < d && t == q * m + r && r < m
    ensures d * m > 0 && n / (d * m) == q
  {
    RestFits(r, d, m, rest);
    Regroups(q, r, d, m, rest);
    Locates(q, r * d + rest, d * m);
  }

  /** Dividing twice is dividing by the product. */
  lemma DivideTwice(n: nat, d: nat, m: nat)
    requires d > 0 && m > 0
    ensures d * m > 0 && n / d / m == n / (d * m)
  {
    var t := n / d;
    Splits(n, d);
    Splits(t, m);
    QuotientOf(n, t, t / m, t % m, d, m, n % d);
  }
}
