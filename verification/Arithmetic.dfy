/** Products, quotients and powers with variable operands, proved in small steps. */
module Arithmetic {

  lemma MulAssoc(x: int, y: int, z: int)
    ensures x * (y * z) == (x * y) * z
  {
  }

  lemma MulDistrib(x: int, y: int, z: int)
    ensures (x + y) * z == x * z + y * z
  {
  }

  lemma MulMono(x: nat, y: nat, z: nat)
    requires x <= y
    ensures x * z <= y * z
  {
    MulDistrib(x, y - x, z);
    assert (y - x) * z >= 0;
  }

  /** A quotient and a remainder determine each other. */
  lemma QuotientIs(x: nat, b: nat, q: nat, r: nat)
    requires r < b && x == q * b + r
    ensures x / b == q && x % b == r
  {
    var q', r' := x / b, x % b;
    assert x == q' * b + r';
    if q < q' {
      MulMono(q + 1, q', b);
      MulDistrib(q, 1, b);
    } else if q > q' {
      MulMono(q' + 1, q, b);
      MulDistrib(q', 1, b);
    }
  }

  lemma Division(x: nat, b: nat)
    requires b > 0
    ensures x == x / b * b + x % b && x % b < b
  {
  }

  lemma QuotientBelow(r: nat, b: nat, c: nat)
    requires b > 0 && r < b * c
    ensures r / b < c
  {
    var s := r / b;
    if s >= c { MulMono(c, s, b); }
  }

  lemma Regroup(q: nat, b: nat, c: nat, s: nat)
    ensures q * (b * c) + s * b == (q * c + s) * b
  {
    MulDistrib(q * c, s, b);
    MulAssoc(q, c, b);
  }

  lemma DivTwice(x: nat, b: nat, c: nat)
    requires b > 0 && c > 0
    ensures b * c > 0 && x / (b * c) == x / b / c
  {
    MulMono(1, b, c);
    var bc := b * c;
    var q, r := x / bc, x % bc;
    var s, t := r / b, r % b;
    assert x == q * bc + r;
    QuotientBelow(r, b, c);
    Regroup(q, b, c, s);
    var m := q * c + s;
    assert x == m * b + t;
    QuotientIs(x, b, m, t);
    QuotientIs(m, c, q, s);
  }

  function CeilDiv(x: nat, y: nat): nat
    requires y > 0
  {
    (x + y - 1) / y
  }

  /** The least n with n * y >= x. */
  lemma CeilDivIs(x: nat, y: nat, n: nat)
    requires y > 0
    ensures CeilDiv(x, y) == n <==> n * y >= x && n * y < x + y
  {
    var q, r := (x + y - 1) / y, (x + y - 1) % y;
    assert x + y - 1 == q * y + r;
    if n * y >= x && n * y < x + y {
      QuotientIs(x + y - 1, y, n, x + y - 1 - n * y);
    }
  }

  function Pow(b: nat, n: nat): (p: nat)
    ensures b > 0 ==> p > 0
  {
    if n == 0 then 1 else b * Pow(b, n - 1)
  }

  lemma {:induction false} PowAdds(b: nat, m: nat, n: nat)
    ensures Pow(b, m + n) == Pow(b, m) * Pow(b, n)
  {
    if m > 0 {
      PowAdds(b, m - 1, n);
      MulAssoc(b, Pow(b, m - 1), Pow(b, n));
    }
  }

  lemma {:induction false} PowOfPow(b: nat, m: nat, n: nat)
    ensures Pow(b, m * n) == Pow(Pow(b, m), n)
  {
    if n > 0 {
      MulDistrib(1, n - 1, m);
      assert m * n == m + m * (n - 1);
      PowAdds(b, m, m * (n - 1));
      PowOfPow(b, m, n - 1);
    }
  }

  lemma PowersOfTwo()
    ensures Pow(2, 1) == 2 && Pow(2, 2) == 4 && Pow(2, 4) == 16 && Pow(2, 8) == 256 && Pow(2, 16) == 65536
  {
    assert Pow(2, 2) == 4;
    PowAdds(2, 2, 2);
    PowAdds(2, 4, 4);
    PowAdds(2, 8, 8);
  }
}
