/**
 The field GF(2^8) modulo x^8 + x^4 + x^3 + x^2 + 1 (0x11D), in which the Reed-Solomon
 code of a QR Code is computed: section 7.5 of ISO/IEC 18004:2015.

 An element is a byte whose bit i is the coefficient of x^i, and addition is exclusive or.
 */
module GaloisField {
  import opened Bits

  const MODULUS: nat := 0x11D

  /** (uint8_t)((z << 1) ^ ((z >> 7) * 0x11D)): multiplication by x. The cast drops nothing. */
  function TimesX(z: byte): byte {
    TimesXFits(z);
    Xor(2 * z, z / 128 * MODULUS)
  }

  lemma TimesXFits(z: byte)
    ensures Xor(2 * z, z / 128 * MODULUS) < 256
  {
    hide Xor, Pow2;
    NinthBit();
    XorTopBit(2 * z, z / 128 * MODULUS, 8);
  }

  lemma NinthBit()
    ensures Pow2(8) == 256 && Pow2(9) == 512
  {
    Pow2Eight();
  }

  /** ((y >> i) & 1) * x, where b is the selected bit. */
  function Scale(b: nat, x: byte): byte
    requires b <= 1
  {
    if b == 0 then 0 else x
  }

  function Add(a: byte, b: byte): byte {
    XorOfBytes(a, b);
    Xor(a, b)
  }

  /** The field product, by Horner's rule over the bits of y from the top. */
  function Mul(x: byte, y: nat): byte {
    if y == 0 then 0 else Add(TimesX(Mul(x, y / 2)), Scale(y % 2, x))
  }

  /** reedSolomonMultiply: Russian peasant multiplication, eight bits from the top of y down. */
  method Multiply(x: byte, y: byte) returns (z: byte)
    ensures z == Mul(x, y)
  {
    z := 0;
    var i := 7;
    Pow2Eight();
    while i >= 0
      invariant -1 <= i <= 7
      invariant z == Mul(x, y / Pow2(i + 1))
    {
      ghost var prefix := y / Pow2(i);
      HalfOfPrefix(y, i);
      z := Add(TimesX(z), Scale(y / Pow2(i) % 2, x));
      assert prefix == 0 ==> z == 0 by {
        if prefix == 0 {
          XorZero(0);
        }
      }
      i := i - 1;
    }
  }

  // ---- Addition

  lemma AddLaws(a: byte, b: byte, c: byte)
    ensures Add(a, b) == Add(b, a)
    ensures Add(Add(a, b), c) == Add(a, Add(b, c))
    ensures Add(a, a) == 0 && Add(a, 0) == a && Add(0, a) == a
  {
    XorCommutes(a, b);
    XorAssociates(a, b, c);
    XorZero(a);
  }

  lemma AddExchange(a: byte, b: byte, c: byte, d: byte)
    ensures Add(Add(a, b), Add(c, d)) == Add(Add(a, c), Add(b, d))
  {
    XorExchange(a, b, c, d);
  }

  // ---- Multiplication by x is linear

  lemma CarryOfSum(a: byte, b: byte)
    ensures Xor(a, b) / 128 * MODULUS == Xor(a / 128 * MODULUS, b / 128 * MODULUS)
  {
    XorOfBytes(a, b);
    assert Xor(a, b) < 128 <==> (a < 128 <==> b < 128) by {
      Pow2Eight();
      XorTopBit(a, b, 7);
    }
    CarryOfByte(a);
    CarryOfByte(b);
    CarryOfByte(Xor(a, b));
    XorZero(MODULUS);
    XorZero(0);
  }

  lemma CarryOfByte(a: byte)
    ensures a / 128 * MODULUS == if a < 128 then 0 else MODULUS
  {
  }

  lemma TimesXLinear(a: byte, b: byte)
    ensures TimesX(Add(a, b)) == Add(TimesX(a), TimesX(b))
  {
    XorDouble(a, b);
    CarryOfSum(a, b);
    XorExchange(2 * a, a / 128 * MODULUS, 2 * b, b / 128 * MODULUS);
  }

  lemma TimesXOfSmall(a: byte)
    requires a < 128
    ensures TimesX(a) == 2 * a
  {
    XorZero(2 * a);
  }

  // ---- Ring laws

  lemma {:induction false} MulLinear(a: byte, b: byte, y: nat)
    ensures Mul(Add(a, b), y) == Add(Mul(a, y), Mul(b, y))
  {
    if y == 0 {
      XorZero(0);
    } else {
      var ma, mb := Mul(a, y / 2), Mul(b, y / 2);
      MulLinear(a, b, y / 2);
      TimesXLinear(ma, mb);
      AddExchange(TimesX(ma), TimesX(mb), Scale(y % 2, a), Scale(y % 2, b));
      XorZero(0);
    }
  }

  lemma {:induction false} MulTimesXLeft(x: byte, y: nat)
    ensures Mul(TimesX(x), y) == TimesX(Mul(x, y))
  {
    TimesXOfSmall(0);
    if y > 0 {
      MulTimesXLeft(x, y / 2);
      TimesXLinear(TimesX(Mul(x, y / 2)), Scale(y % 2, x));
    }
  }

  lemma {:induction false} MulZeroLeft(y: nat)
    ensures Mul(0, y) == 0
  {
    TimesXOfSmall(0);
    XorZero(0);
    if y > 0 {
      MulZeroLeft(y / 2);
    }
  }

  lemma AddBit(h: nat, b: nat)
    requires h < 128 && b <= 1
    ensures Add(2 * h, b) == 2 * h + b
  {
    XorCons(h, 0, 0, b);
    XorZero(h);
  }

  lemma {:induction false} MulOneLeft(y: byte)
    ensures Mul(1, y) == y
  {
    if y > 0 {
      var h, b := y / 2, y % 2;
      MulOneLeft(h);
      TimesXOfSmall(h);
      AddBit(h, b);
      assert Scale(b, 1) == b;
    }
  }

  lemma {:induction false} MulCommutes(x: byte, y: byte)
    ensures Mul(x, y) == Mul(y, x)
  {
    if y == 0 {
      MulZeroLeft(x);
    } else {
      var h, b := y / 2, y % 2;
      MulCommutes(x, h);
      MulTimesXLeft(h, x);
      TimesXOfSmall(h);
      AddBit(h, b);
      MulLinear(2 * h, b, x);
      MulOneLeft(x);
      MulZeroLeft(x);
    }
  }

  lemma MulDistributes(x: byte, a: byte, b: byte)
    ensures Mul(x, Add(a, b)) == Add(Mul(x, a), Mul(x, b))
  {
    MulLinear(a, b, x);
    MulCommutes(x, Add(a, b));
    MulCommutes(x, a);
    MulCommutes(x, b);
  }

  lemma {:induction false} MulAssociates(x: byte, y: byte, z: byte)
    ensures Mul(Mul(x, y), z) == Mul(x, Mul(y, z))
  {
    if z > 0 {
      var m := Mul(y, z / 2);
      MulAssociates(x, y, z / 2);
      MulTimesXLeft(m, x);
      MulCommutes(x, m);
      MulCommutes(x, TimesX(m));
      MulDistributes(x, TimesX(m), Scale(z % 2, y));
    }
  }

  // ---- The product is the product of polynomials over GF(2), modulo 0x11D

  /** The unreduced product of two polynomials over GF(2), each given by its coefficient bits. */
  function PlainProduct(p: nat, q: nat): nat {
    if q == 0 then 0 else Xor(2 * PlainProduct(p, q / 2), if q % 2 == 0 then 0 else p)
  }

  /** x * y leaves the remainder z modulo 0x11D, with quotient q. */
  predicate LeavesRemainder(x: byte, y: byte, q: nat, z: byte) {
    PlainProduct(x, y) == Xor(PlainProduct(MODULUS, q), z)
  }

  /** The bits that reduction takes off, which form the quotient. */
  function Quotient(x: byte, y: nat): nat {
    if y == 0 then 0 else 2 * Quotient(x, y / 2) + Mul(x, y / 2) / 128
  }

  lemma {:induction false} MulIsRemainder(x: byte, y: nat)
    ensures PlainProduct(x, y) == Xor(PlainProduct(MODULUS, Quotient(x, y)), Mul(x, y))
  {
    hide Xor, TimesX;
    if y == 0 {
      XorZero(0);
    } else {
      var m := Mul(x, y / 2);
      var carry := m / 128 * MODULUS;
      var p := PlainProduct(MODULUS, Quotient(x, y / 2));
      var s := Scale(y % 2, x);
      calc {
        PlainProduct(x, y);
        Xor(2 * PlainProduct(x, y / 2), s);
        { MulIsRemainder(x, y / 2); XorDouble(p, m); }
        Xor(Xor(2 * p, 2 * m), s);
        { TimesXIs(m); XorCancels(2 * m, carry); XorCommutes(TimesX(m), carry); }
        Xor(Xor(2 * p, Xor(carry, TimesX(m))), s);
        { XorAssociates(2 * p, carry, TimesX(m)); XorAssociates(Xor(2 * p, carry), TimesX(m), s); }
        Xor(Xor(2 * p, carry), Xor(TimesX(m), s));
        { PlainProductCons(MODULUS, Quotient(x, y / 2), m / 128); }
        Xor(PlainProduct(MODULUS, Quotient(x, y)), Mul(x, y));
      }
    }
  }

  lemma TimesXIs(z: byte)
    ensures TimesX(z) == Xor(2 * z, z / 128 * MODULUS)
  {
  }

  lemma PlainProductCons(p: nat, q: nat, b: nat)
    requires b <= 1
    ensures PlainProduct(p, 2 * q + b) == Xor(2 * PlainProduct(p, q), b * p)
  {
    hide Xor;
    XorZero(0);
    XorZero(2 * PlainProduct(p, q));
    assert (2 * q + b) / 2 == q;
  }

  lemma {:induction false} PlainProductLinear(p: nat, a: nat, b: nat)
    ensures PlainProduct(p, Xor(a, b)) == Xor(PlainProduct(p, a), PlainProduct(p, b))
    decreases a + b
  {
    XorZero(0);
    XorZero(p);
    if a + b > 0 {
      var pa, pb := PlainProduct(p, a / 2), PlainProduct(p, b / 2);
      PlainProductLinear(p, a / 2, b / 2);
      XorUnfold(a, b);
      XorDouble(pa, pb);
      XorExchange(2 * pa, if a % 2 == 0 then 0 else p, 2 * pb, if b % 2 == 0 then 0 else p);
      assert PlainProduct(p, a) == Xor(2 * pa, if a % 2 == 0 then 0 else p);
      assert PlainProduct(p, b) == Xor(2 * pb, if b % 2 == 0 then 0 else p);
    }
  }

  /** A nonzero multiple of 0x11D has degree at least 8. */
  lemma {:induction false} MultipleIsLarge(q: nat, k: nat)
    requires Pow2(k) <= q < Pow2(k + 1)
    ensures Pow2(k + 8) <= PlainProduct(MODULUS, q) < Pow2(k + 9)
  {
    hide Xor, Pow2;
    Pow2Eight();
    Pow2Doubles(8);
    Pow2Doubles(k);
    if k == 0 {
      ModulusOnce();
    } else {
      var half, low := PlainProduct(MODULUS, q / 2), if q % 2 == 0 then 0 else MODULUS;
      Pow2Doubles(k - 1);
      Pow2Doubles(k + 7);
      Pow2Doubles(k + 8);
      MultipleIsLarge(q / 2, k - 1);
      Pow2Monotone(9, k + 8);
      XorTopBit(2 * half, low, k + 8);
    }
  }

  lemma ModulusOnce()
    ensures PlainProduct(MODULUS, 1) == MODULUS && Pow2(0) == 1
  {
    XorZero(MODULUS);
  }

  lemma Pow2Doubles(k: nat)
    ensures Pow2(k + 1) == 2 * Pow2(k)
  {
  }

  lemma {:induction false} DegreeExists(q: nat) returns (k: nat)
    requires q > 0
    ensures Pow2(k) <= q < Pow2(k + 1)
  {
    if q == 1 {
      k := 0;
    } else {
      k := DegreeExists(q / 2);
      k := k + 1;
    }
  }

  lemma RemainderIsUnique(q1: nat, q2: nat, z1: byte, z2: byte)
    requires Xor(PlainProduct(MODULUS, q1), z1) == Xor(PlainProduct(MODULUS, q2), z2)
    ensures z1 == z2
  {
    hide Xor, Pow2;
    var p1, p2 := PlainProduct(MODULUS, q1), PlainProduct(MODULUS, q2);
    XorExchange(p1, z1, p2, z2);
    XorZero(Xor(p1, z1));
    EqualWhenXorZero(Xor(p1, p2), Xor(z1, z2));
    PlainProductLinear(MODULUS, q1, q2);
    XorOfBytes(z1, z2);
    if Xor(q1, q2) > 0 {
      var k := DegreeExists(Xor(q1, q2));
      MultipleIsLarge(Xor(q1, q2), k);
      Pow2Monotone(8, k + 8);
      Pow2Eight();
    }
    EqualWhenXorZero(z1, z2);
  }

  lemma EqualWhenXorZero(a: nat, b: nat)
    requires Xor(a, b) == 0
    ensures a == b
  {
    XorCancels(a, b);
    XorZero(b);
  }

  /** reedSolomonMultiply computes the field product: the one byte congruent to x * y modulo 0x11D. */
  lemma MulIsProductModulo(x: byte, y: byte, z: byte)
    ensures z == Mul(x, y) <==> exists q :: LeavesRemainder(x, y, q, z)
  {
    MulIsRemainder(x, y);
    assert LeavesRemainder(x, y, Quotient(x, y), Mul(x, y));
    if q :| LeavesRemainder(x, y, q, z) {
      RemainderIsUnique(Quotient(x, y), q, Mul(x, y), z);
    }
  }
}
