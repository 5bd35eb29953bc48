/** Powers of two, and division by them one bit at a time. */
module Powers {

  function Pow2(n: nat): (r: nat)
    ensures r > 0
  {
    if n == 0 then 1 else 2 * Pow2(n - 1)
  }

  lemma DivModStep(a: nat, q: nat)
    requires q > 0
    ensures a / (2 * q) == (a / 2) / q && a % (2 * q) == 2 * ((a / 2) % q) + a % 2
  {
    var h := a / 2;
    var d, r := h / q, h % q;
    assert h == d * q + r;
    assert a == d * (2 * q) + (2 * r + a % 2);
    DivModUnique(a, 2 * q, d, 2 * r + a % 2);
  }

  /** A number is in the block of `q` that starts at `d * q` exactly if its quotient is `d`. */
  lemma Block(a: nat, q: nat, d: nat)
    requires q > 0
    ensures a / q == d <==> d * q <= a < d * q + q
  {
    if d * q <= a < d * q + q {
      DivModUnique(a, q, d, a - d * q);
    }
  }

  lemma DivModUnique(a: nat, m: nat, d: nat, r: nat)
    requires m > 0 && a == d * m + r && r < m
    ensures a / m == d && a % m == r
  {
    var e, s := a / m, a % m;
    Difference(e, d, m, s, r);
    if e > d {
      AtLeast(e - d, m);
    } else if e < d {
      AtLeast(d - e, m);
    }
  }

  lemma Difference(e: nat, d: nat, m: nat, s: nat, r: nat)
    requires e * m + s == d * m + r
    ensures (e - d) * m == r - s && (d - e) * m == s - r
  {
  }

  lemma AtLeast(x: int, m: nat)
    requires x >= 1
    ensures x * m >= m
  {
    assert x * m == m + (x - 1) * m;
  }
}
