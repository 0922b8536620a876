/** The conversion of floats to half precision in src/nn/nn-quants.cpp, on exponent and mantissa fields. */
module Quants {
  import opened Arith

  function Pow2(t: nat): (p: nat)
    ensures p > 0
  {
    if t == 0 then 1 else 2 * Pow2(t - 1)
  }

  /** `m` divided by two to the `t`, to the nearest integer, halves to the even one (roundTiesToEven of
      section 4.3.1 of IEEE 754-2019). */
  ghost predicate RoundHalfEven(m: nat, t: nat, q: nat) {
    && 2 * (q * Pow2(t)) <= 2 * m + Pow2(t) && 2 * m <= 2 * (q * Pow2(t)) + Pow2(t)
    && (2 * (q * Pow2(t)) == 2 * m + Pow2(t) || 2 * m == 2 * (q * Pow2(t)) + Pow2(t) ==> q % 2 == 0)
  }

  /** The mantissa step of convertF32ToF16Impl: add half an ulp less one, and the parity bit, then shift. */
  function MantissaStep(m: nat, t: nat): nat
    requires t >= 1
  {
    Div(m + (Pow2(t - 1) - 1) + Div(m, Pow2(t)) % 2, Pow2(t))
  }

  /** It rounds half to even for every mantissa and every shift. */
  lemma MantissaStepRounds(m: nat, t: nat)
    requires t >= 1
    ensures RoundHalfEven(m, t, MantissaStep(m, t))
  {
    var p, h := Pow2(t), Pow2(t - 1);
    assert p == 2 * h;
    var q, r := Div(m, p), Rem(m, p);
    Division(m, p);
    var x := m + (h - 1) + q % 2;
    Division(x, p);
    MulNext(q, p);
    Quotient(x, if r + (h - 1) + q % 2 >= p then q + 1 else q, p);
    assert MantissaStep(m, t) == Div(x, p);
    Rounded(m, p, h, q, r, Div(x, p));
  }

  lemma Rounded(m: nat, p: nat, h: nat, q: nat, r: nat, s: nat)
    requires p == 2 * h && h > 0 && m == Mul(q, p) + r && r < p
    requires s == if r + (h - 1) + q % 2 >= p then q + 1 else q
    ensures 2 * (s * p) <= 2 * m + p && 2 * m <= 2 * (s * p) + p
    ensures 2 * (s * p) == 2 * m + p || 2 * m == 2 * (s * p) + p ==> s % 2 == 0
  {
    assert Mul(s, p) == s * p;
    MulNext(q, p);
    hide Mul;
  }

  /** At most one integer is the rounded value. */
  lemma RoundHalfEvenUnique(m: nat, t: nat, a: nat, b: nat)
    requires RoundHalfEven(m, t, a) && RoundHalfEven(m, t, b)
    ensures a == b
  {
    var p := Pow2(t);
    if a < b {
      Apart(m, p, a, b);
    } else if b < a {
      Apart(m, p, b, a);
    }
  }

  lemma Apart(m: nat, p: nat, a: nat, b: nat)
    requires a < b && p > 0
    requires 2 * m <= 2 * (a * p) + p && 2 * (b * p) <= 2 * m + p
    ensures b == a + 1 && 2 * m == 2 * (a * p) + p && 2 * (b * p) == 2 * m + p
  {
    assert a * p == Mul(a, p) && b * p == Mul(b, p);
    hide Mul;
    MulNext(a, p);
    MulNext(a + 1, p);
    MulMonotone(a + 1, b, p);
    if b > a + 1 {
      MulMonotone(a + 2, b, p);
    }
  }

  datatype Half = Half(bits: nat) | Overflow

  /** convertF32ToF16Impl without the sign bit: exponent field and mantissa of 23 bits; the exponent
      assertion is Overflow. */
  function ConvertF32ToF16(exponent: nat, mantissa: nat): Half
    requires exponent < 256 && mantissa < 0x800000
  {
    var e := exponent - 112;
    if e <= 0 then
      if e < -10 then Half(0)
      else Half(MantissaStep(mantissa + 0x800000, 14 - e))
    else if e == 0xff - 112 then
      var m := mantissa / 0x2000;
      Half(0x7c00 + if mantissa == 0 then 0 else if m == 0 then 1 else m)
    else
      var m := mantissa + 0xfff + mantissa / 0x2000 % 2;
      var (m', e') := if m >= 0x800000 then (0, e + 1) else (m, e);
      if e' > 30 then Overflow else Half(e' * 0x400 + m' / 0x2000)
  }

  /** The significand with its exponent as one integer, in units of the float's last place. A subnormal
      float has no implicit bit and the exponent of field 1. */
  function Scaled(exponent: nat, mantissa: nat): nat {
    if exponent == 0 then mantissa
    else if exponent <= 112 then mantissa + 0x800000
    else (exponent - 112) * 0x800000 + mantissa
  }

  /** The last places dropped on the way to a half. */
  function Dropped(exponent: nat): nat {
    if exponent == 0 then 125 else if exponent <= 112 then 126 - exponent else 13
  }

  /** The whole conversion of a finite float is one rounding, half to even: normal results including a
      carry into the exponent, subnormal results, and values that vanish. */
  lemma ConversionRounds(exponent: nat, mantissa: nat)
    requires exponent < 255 && mantissa < 0x800000
    ensures var h := ConvertF32ToF16(exponent, mantissa);
            if h.Half? then RoundHalfEven(Scaled(exponent, mantissa), Dropped(exponent), h.bits)
            else forall q: nat :: RoundHalfEven(Scaled(exponent, mantissa), Dropped(exponent), q) ==> q >= 31 * 0x400
  {
    var s, t := Scaled(exponent, mantissa), Dropped(exponent);
    MantissaStepRounds(s, t);
    if exponent > 112 {
      NormalStep(exponent - 112, mantissa);
    }
    hide RoundHalfEven, MantissaStep;
    if exponent < 102 {
      Vanishes(s, t);
    }
    forall q: nat | RoundHalfEven(s, t, q)
      ensures q == MantissaStep(s, t)
    {
      RoundHalfEvenUnique(s, t, q, MantissaStep(s, t));
    }
  }

  lemma Pow2Is13()
    ensures Pow2(12) == 0x1000 && Pow2(13) == 0x2000
  {
    assert Pow2(4) == 16;
    assert Pow2(8) == 256;
    assert Pow2(12) == 0x1000;
  }

  lemma {:induction false} Pow2Grows(t: nat, u: nat)
    requires t <= u
    ensures Pow2(t) <= Pow2(u)
    decreases u
  {
    if t < u {
      Pow2Grows(t, u - 1);
    }
  }

  /** Less than half of the smallest subnormal rounds to zero. */
  lemma Vanishes(m: nat, t: nat)
    requires t >= 25 && m < 0x1000000
    ensures RoundHalfEven(m, t, 0)
  {
    Pow2Is24();
    assert Pow2(25) == 0x2000000;
    Pow2Grows(25, t);
  }

  lemma Pow2Is24()
    ensures Pow2(14) == 0x4000 && Pow2(24) == 0x1000000
  {
    Pow2Is13();
    assert Pow2(14) == 0x4000;
    assert Pow2(16) == 0x10000;
    assert Pow2(20) == 0x100000;
    assert Pow2(24) == 0x1000000;
  }

  /** A half is finite exactly when the float is, infinite exactly when it is, and no number otherwise;
      the sign bit is free. */
  lemma ConversionKeepsClass(exponent: nat, mantissa: nat)
    requires exponent < 256 && mantissa < 0x800000
    ensures var h := ConvertF32ToF16(exponent, mantissa);
            h.Half? ==>
              && h.bits < 0x8000
              && (h.bits < 0x7c00 <==> exponent < 255)
              && (h.bits == 0x7c00 <==> exponent == 255 && mantissa == 0)
              && (h.bits > 0x7c00 <==> exponent == 255 && mantissa != 0)
  {
    if 102 <= exponent <= 112 {
      SubnormalStep(mantissa + 0x800000, 126 - exponent);
    }
  }

  lemma SubnormalStep(m: nat, t: nat)
    requires t >= 14 && m < 0x1000000
    ensures MantissaStep(m, t) <= 0x400
  {
    MantissaStepRounds(m, t);
    Pow2Is24();
    Pow2Grows(14, t);
    var q, p := MantissaStep(m, t), Pow2(t);
    if q > 0x400 {
      MulMonotone(0x401, q, p);
    }
  }

  /** The normal branch is the mantissa step on exponent and mantissa together. */
  lemma NormalStep(e: nat, mantissa: nat)
    requires e >= 1 && mantissa < 0x800000
    ensures var m := mantissa + 0xfff + mantissa / 0x2000 % 2;
            var (m', e') := if m >= 0x800000 then (0, e + 1) else (m, e);
            e' * 0x400 + m' / 0x2000 == MantissaStep(e * 0x800000 + mantissa, 13)
  {
    Pow2Is13();
    var m := mantissa + 0xfff + mantissa / 0x2000 % 2;
    var x := e * 0x800000 + mantissa;
    Quotient(x, e * 0x400 + mantissa / 0x2000, 0x2000);
    Shifted(e, mantissa);
    assert x / 0x2000 == Div(x, 0x2000) == e * 0x400 + mantissa / 0x2000;
    assert x + (0x1000 - 1) + x / 0x2000 % 2 == e * 0x800000 + m;
    Shifted(e, m);
  }

  lemma Shifted(e: nat, m: nat)
    ensures (e * 0x800000 + m) / 0x2000 == e * 0x400 + m / 0x2000
    ensures Mul(e * 0x400 + m / 0x2000, 0x2000) <= e * 0x800000 + m < Mul(e * 0x400 + m / 0x2000, 0x2000) + 0x2000
  {
  }
}
