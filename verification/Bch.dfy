/**
 The check bits of format and version information: sections 7.9 and 7.10 of ISO/IEC 18004:2015.
 Bits are the coefficients of a polynomial over GF(2), and the check bits make it a multiple of the generator.
 */
module Bch {
  import opened Bits
  import opened GaloisField
  import Arith

  ghost predicate HasDegree(generator: nat, k: nat) {
    Pow2(k) <= generator < Pow2(k + 1)
  }

  /** The remainder after n steps of dividing data * x^n by a generator of degree k + 1. */
  ghost function Division(data: nat, k: nat, generator: nat, n: nat): (r: nat)
    requires data < Pow2(k + 1) && HasDegree(generator, k + 1)
    ensures r < Pow2(k + 1)
  {
    if n == 0 then data
    else
      var rem := Division(data, k, generator, n - 1);
      StepFits(rem, k, generator);
      Xor(2 * rem, if rem < Pow2(k) then 0 else generator)
  }

  lemma StepFits(rem: nat, k: nat, generator: nat)
    requires rem < Pow2(k + 1) && HasDegree(generator, k + 1)
    ensures Xor(2 * rem, if rem < Pow2(k) then 0 else generator) < Pow2(k + 1)
  {
    hide Xor;
    XorTopBit(2 * rem, if rem < Pow2(k) then 0 else generator, k + 1);
  }

  /** The quotient of those steps. */
  ghost function DivisionQuotient(data: nat, k: nat, generator: nat, n: nat): nat
    requires data < Pow2(k + 1) && HasDegree(generator, k + 1)
  {
    if n == 0 then 0
    else
      var bit := if Division(data, k, generator, n - 1) < Pow2(k) then 0 else 1;
      2 * DivisionQuotient(data, k, generator, n - 1) + bit
  }

  /** Shifted data and remainder together are a multiple of the generator. */
  lemma {:induction false} DivisionIsExact(data: nat, k: nat, generator: nat, n: nat)
    requires data < Pow2(k + 1) && HasDegree(generator, k + 1)
    ensures Xor(data * Pow2(n), Division(data, k, generator, n)) ==
              PlainProduct(generator, DivisionQuotient(data, k, generator, n))
  {
    hide Xor, HasDegree, PlainProduct;
    if n == 0 {
      XorZero(data);
      PlainProductOfNothing(generator);
    } else {
      var rem, d := Division(data, k, generator, n - 1), data * Pow2(n - 1);
      var b := if rem < Pow2(k) then 0 else 1;
      DivisionIsExact(data, k, generator, n - 1);
      assert data * Pow2(n) == 2 * d;
      XorAssociates(2 * d, 2 * rem, b * generator);
      XorDouble(d, rem);
      PlainProductCons(generator, DivisionQuotient(data, k, generator, n - 1), b);
    }
  }

  lemma PlainProductOfNothing(p: nat)
    ensures PlainProduct(p, 0) == 0
  {
  }

  /** Data with its check bits behind it: a multiple of the generator that begins with the data. */
  lemma CheckedData(data: nat, k: nat, generator: nat)
    requires data < Pow2(k + 1) && HasDegree(generator, k + 1)
    ensures var bits := Or(data * Pow2(k + 1), Division(data, k, generator, k + 1));
            bits == PlainProduct(generator, DivisionQuotient(data, k, generator, k + 1)) && bits / Pow2(k + 1) == data
  {
    hide Xor, Or, HasDegree, PlainProduct, DivisionQuotient, Division, Pow2;
    var rem := Division(data, k, generator, k + 1);
    DivisionIsExact(data, k, generator, k + 1);
    OrAboveAndBelow(data, rem, k + 1);
    XorAboveAndBelow(data, rem, k + 1);
    Arith.Commute(data, Pow2(k + 1));
    Arith.DivideUnique(data * Pow2(k + 1) + rem, Pow2(k + 1), data, rem);
  }
}
