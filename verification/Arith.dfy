/** Products, quotients and remainders of natural numbers behind names, so that proofs about index
    arithmetic stay linear. */
module Arith {
  function Mul(a: nat, b: nat): nat {
    a * b
  }

  function Div(x: nat, c: nat): nat
    requires c > 0
  {
    x / c
  }

  function Rem(x: nat, c: nat): nat
    requires c > 0
  {
    x % c
  }

  lemma Division(x: nat, c: nat)
    requires c > 0
    ensures x == Mul(Div(x, c), c) + Rem(x, c) && Rem(x, c) < c && (c <= x ==> Div(x, c) >= 1 && Mul(Div(x, c), c) >= c)
  {
  }

  lemma MulNext(a: nat, b: nat)
    ensures Mul(a + 1, b) == Mul(a, b) + b && Mul(a, b + 1) == Mul(a, b) + a && Mul(a, b) == Mul(b, a) && Mul(0, b) == 0
  {
  }

  lemma MulMonotone(a: nat, b: nat, c: nat)
    requires a <= b
    ensures Mul(a, c) <= Mul(b, c)
  {
  }

  lemma MulAssociative(a: nat, b: nat, c: nat)
    ensures Mul(a, Mul(b, c)) == Mul(Mul(a, b), c)
  {
    assert a * (b * c) == (a * b) * c;
  }

  lemma MulDistributes(a: nat, b: nat, c: nat)
    ensures Mul(a + b, c) == Mul(a, c) + Mul(b, c)
  {
  }

  lemma Quotient(x: nat, q: nat, c: nat)
    requires c > 0
    ensures Mul(q, c) <= x < Mul(q, c) + c <==> Div(x, c) == q
    ensures Div(x, c) == q ==> Rem(x, c) == x - Mul(q, c)
  {
    hide Mul, Div, Rem;
    var d := Div(x, c);
    Division(x, c);
    MulNext(d, c);
    MulNext(q, c);
    if d < q {
      MulMonotone(d + 1, q, c);
    } else if d > q {
      MulMonotone(q + 1, d, c);
    }
  }
}
