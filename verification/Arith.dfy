/** Multiplication and division facts, each small enough to be checked on its own. */
module Arith {

  function Min(a: nat, b: nat): nat {
    if a < b then a else b
  }

  function Max(a: nat, b: nat): nat {
    if a < b then b else a
  }

  lemma MulMono(p: nat, a: int, b: int)
    requires a <= b
    ensures p * a <= p * b
  {}

  lemma Double(p: int, k: int)
    ensures (2 * p) * k == 2 * (p * k)
  {}

  lemma QuotientsAgree(p: nat, q: int, r: int, q': int, r': int)
    requires p > 0 && p * q + r == p * q' + r'
    requires 0 <= r < p && 0 <= r' < p
    ensures q == q' && r == r'
  {
    if q < q' {
      MulMono(p, q + 1, q');
    } else if q' < q {
      MulMono(p, q' + 1, q);
    }
  }

  lemma DivUnique(v: int, p: nat, q: int, r: int)
    requires p > 0 && v == p * q + r && 0 <= r < p
    ensures v / p == q && v % p == r
  {
    QuotientsAgree(p, q, r, v / p, v % p);
  }

  lemma DivTwice(v: nat, p: nat)
    requires p > 0
    ensures v / 2 / p == v / (2 * p)
  {
    var h := v / 2;
    var q, r := h / p, h % p;
    assert h == p * q + r;
    assert (2 * p) * q == 2 * (p * q);
    DivUnique(v, 2 * p, q, 2 * r + v % 2);
  }

  lemma ModHalf(v: nat, p: nat)
    requires p > 0
    ensures v % (2 * p) == 2 * (v / 2 % p) + v % 2
  {
    var h := v / 2;
    var q, r := h / p, h % p;
    assert h == p * q + r;
    assert (2 * p) * q == 2 * (p * q);
    DivUnique(v, 2 * p, q, 2 * r + v % 2);
  }

  // x fits p times below y.
  lemma DivAtLeast(x: nat, y: nat, p: nat)
    requires p > 0 && p * x <= y
    ensures x <= y / p
  {
    if y / p < x {
      MulMono(p, y / p + 1, x);
    }
  }

  lemma DivBelow(x: nat, y: nat, p: nat)
    requires p > 0 && y < p * x
    ensures y / p < x
  {
    if y / p >= x {
      MulMono(p, x, y / p);
    }
  }

  lemma DivPlusMultiple(v: nat, p: nat, m: nat)
    requires p > 0
    ensures (v + p * m) / p == v / p + m
  {
    var q, r := v / p, v % p;
    assert p * (q + m) == p * q + p * m;
    DivUnique(v + p * m, p, q + m, r);
  }

  // A number kept modulo a multiple of n, and what is added to it, is right modulo n.
  lemma KeptMod(kept: int, q: int, n: nat, m: nat, i: int)
    requires n > 0 && m > 0 && kept == q % (n * m)
    ensures (kept + i) % n == (q + i) % n
  {
    var k, t, r := q / (n * m), (kept + i) / n, (kept + i) % n;
    assert n * (m * k + t) == n * m * k + n * t;
    DivUnique(q + i, n, m * k + t, r);
  }
}
