/** Division facts that the solver does not find on its own. */
module Arithmetic {
  lemma MulMono(a: int, b: int, c: int)
    requires a <= b && 0 <= c
    ensures a * c <= b * c
  {
  }

  lemma Distribute(a: int, b: int, c: int)
    ensures a * (b + c) == a * b + a * c
    ensures a * (b - c) == a * b - a * c
  {
  }

  lemma DivModUnique(a: int, c: int, q: int, r: int)
    requires 0 <= r < c && a == q * c + r
    ensures a / c == q && a % c == r
  {
    var q', r' := a / c, a % c;
    assert a == q' * c + r';
    if q' < q {
      MulMono(q' + 1, q, c);
    } else if q < q' {
      MulMono(q + 1, q', c);
    }
  }

  lemma NextRemainder(x: nat, p: nat)
    requires p > 0
    ensures (x + 1) % p == if x % p == p - 1 then 0 else x % p + 1
  {
    var q, r := x / p, x % p;
    assert x + 1 == q * p + (r + 1);
    if r == p - 1 {
      DivModUnique(x + 1, p, q + 1, 0);
    } else {
      DivModUnique(x + 1, p, q, r + 1);
    }
  }
}
