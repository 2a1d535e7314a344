/**
 The powers of 2 in GF(2^8): all 255 are different, so 2 generates every element but 0, and products of elements
 that are not 0 are not 0. The code relies on this for its choice of roots.
 */
module FieldOrder {
  import Arith
  import opened Bits
  import opened FieldProducts
  import opened GaloisField
  import opened ReedSolomon

  const ORDER := 255

  // ---- Exponents

  lemma {:induction false} RootSum(a: nat, b: nat)
    ensures Root(a + b) == Mul(Root(a), Root(b))
  {
    hide Mul;
    if b == 0 {
      MulOneLeft(Root(a));
      MulCommutes(Root(a), 1);
    } else {
      RootSum(a, b - 1);
      MulAssociates(Root(a), Root(b - 1), 2);
    }
  }

  lemma {:induction false} RootMultiple(b: nat, q: nat)
    requires Root(b) == 1
    ensures Root(b * q) == 1
  {
    hide Mul;
    if q == 0 {
      assert b * q == 0;
    } else {
      RootMultiple(b, q - 1);
      Arith.MulSuccessor(b, q - 1);
      RootSum(b * (q - 1), b);
      MulOneLeft(1);
    }
  }

  lemma Doubled(i: nat, v: byte)
    requires Root(i) == v
    ensures Root(2 * i) == Mul(v, v)
  {
    hide Mul, Root;
    RootSum(i, i);
  }

  lemma NextRoot(i: nat)
    ensures Root(i + 1) == TimesX(Root(i)) && Root(0) == 1
  {
    hide TimesX;
    var x := Root(i);
    MulUnfold(x, 2);
    MulUnfold(x, 1);
    TimesXOfSmall(0);
    AddLaws(x, 0, 0);
    AddLaws(TimesX(x), 0, 0);
  }

  /** Repeated squaring. */
  lemma PowersOfTwo()
    ensures Root(1) == 2 && Root(4) == 16 && Root(8) == 29 && Root(16) == 76
    ensures Root(32) == 157 && Root(64) == 95 && Root(128) == 133 && Root(256) == 2
  {
    hide Mul, Root, TimesX;
    NextRoot(0);
    TimesXOfSmall(1);
    Product2By2();
    Product4By4();
    Product16By16();
    Product29By29();
    Product76By76();
    Product157By157();
    Product95By95();
    Product133By133();
    Doubled(1, 2);
    Doubled(2, 4);
    Doubled(4, 16);
    Doubled(8, 29);
    Doubled(16, 76);
    Doubled(32, 157);
    Doubled(64, 95);
    Doubled(128, 133);
  }

  lemma TimesXInjective(a: byte, b: byte)
    requires TimesX(a) == TimesX(b)
    ensures a == b
  {
    hide Xor;
    TimesXIs(a);
    TimesXIs(b);
    CarryOfByte(a);
    CarryOfByte(b);
    ParityOfXor(2 * a, a / 128 * MODULUS);
    ParityOfXor(2 * b, b / 128 * MODULUS);
    XorCancels(2 * a, a / 128 * MODULUS);
    XorCancels(2 * b, b / 128 * MODULUS);
  }

  lemma ParityOfXor(a: nat, b: nat)
    ensures Xor(a, b) % 2 == (a + b) % 2
  {
    hide Xor;
    XorUnfold(a, b);
  }

  // ---- The order of 2

  lemma RootOfOrder()
    ensures Root(ORDER) == 1
  {
    hide Root, TimesX;
    PowersOfTwo();
    NextRoot(255);
    NextRoot(0);
    TimesXInjective(Root(255), 1);
  }

  /** None of the largest proper divisors of 255 is an exponent of 1. */
  lemma SmallerPowersDiffer()
    ensures Root(15) != 1 && Root(51) != 1 && Root(85) != 1
  {
    hide Mul, Root, TimesX;
    PowersOfTwo();
    NextRoot(15);
    NextRoot(0);
    Product29By16();
    Product157By95();
    RootSum(8, 4);
    RootSum(51, 13);
    RootSum(32, 64);
    RootSum(85, 11);
    NextRoot(12);
    NextRoot(8);
    NextRoot(9);
    NextRoot(10);
    MulOneLeft(Root(13));
    MulOneLeft(Root(11));
    SomeDoubles();
  }

  lemma SomeDoubles()
    ensures TimesX(205) == 135 && TimesX(29) == 58 && TimesX(58) == 116 && TimesX(116) == 232
  {
    TimesXOfSmall(29);
    TimesXOfSmall(58);
    TimesXOfSmall(116);
    assert Xor(410, 285) == 135;
  }

  function Gcd(a: nat, b: nat): (g: nat)
    requires a > 0 || b > 0
    ensures g > 0
    decreases b
  {
    if b == 0 then a else Gcd(b, a % b)
  }

  predicate Divides(g: nat, n: nat)
    requires g > 0
  {
    n % g == 0
  }

  lemma {:induction false} GcdDivides(a: nat, b: nat)
    requires a > 0 || b > 0
    ensures Divides(Gcd(a, b), a) && Divides(Gcd(a, b), b)
    decreases b
  {
    hide Divides, Gcd;
    GcdUnfold(a, b);
    if b > 0 {
      GcdDivides(b, a % b);
      DividesSum(Gcd(b, a % b), b, a / b, a % b);
    }
  }

  lemma GcdUnfold(a: nat, b: nat)
    requires a > 0 || b > 0
    ensures b == 0 ==> Gcd(a, b) == a && Divides(a, a) && Divides(a, 0)
    ensures b > 0 ==> Gcd(a, b) == Gcd(b, a % b)
  {
  }

  lemma DividesSum(g: nat, b: nat, q: nat, r: nat)
    requires g > 0 && Divides(g, b) && Divides(g, r)
    ensures Divides(g, b * q + r)
  {
    var k, m := b / g, r / g;
    Arith.Reassociate(g, k, q);
    Arith.Distribute(g, k * q, m);
    Arith.DivideUnique(b * q + r, g, k * q + m, 0);
  }

  lemma {:induction false} GcdIsExponent(a: nat, b: nat)
    requires (a > 0 || b > 0) && Root(a) == 1 && Root(b) == 1
    ensures Root(Gcd(a, b)) == 1
    decreases b
  {
    hide Root, Mul;
    if b > 0 {
      RootMultiple(b, a / b);
      RootSum(b * (a / b), a % b);
      MulOneLeft(Root(a % b));
      GcdIsExponent(b, a % b);
    }
  }

  /** A proper divisor of 255 divides 15, 51 or 85. */
  lemma ProperDivisors(g: nat)
    requires 0 < g < ORDER && Divides(g, ORDER)
    ensures Divides(g, 15) || Divides(g, 51) || Divides(g, 85)
  {
    var m := ORDER / g;
    assert g * m == ORDER;
    if m >= 16 && g >= 16 {
      Arith.MulMonotone(g, 16, m);
      assert false;
    } else if g < 16 {
      SmallFactor(g, m);
    } else {
      Arith.Commute(g, m);
      SmallFactor(m, g);
    }
  }

  lemma SmallFactor(g: nat, m: nat)
    requires 0 < g < 16 && g * m == ORDER
    ensures g in {1, 3, 5, 15} && m in {255, 85, 51, 17}
  {
    match g
    case 1 => case 2 => case 3 => case 4 => case 5 => case 6 => case 7 => case 8 =>
    case 9 => case 10 => case 11 => case 12 => case 13 => case 14 => case 15 =>
  }

  /** 2 has order 255. */
  lemma NoSmallerExponent(d: nat)
    requires 0 < d < ORDER
    ensures Root(d) != 1
  {
    hide Root, Gcd;
    if Root(d) == 1 {
      RootOfOrder();
      GcdIsExponent(d, ORDER);
      GcdDivides(d, ORDER);
      var g := Gcd(d, ORDER);
      DivisorIsSmaller(g, d);
      ProperDivisors(g);
      SmallerPowersDiffer();
      MultipleOf(g, 15);
      MultipleOf(g, 51);
      MultipleOf(g, 85);
    }
  }

  lemma DivisorIsSmaller(g: nat, d: nat)
    requires g > 0 && d > 0 && Divides(g, d)
    ensures g <= d
  {
  }

  lemma MultipleOf(g: nat, n: nat)
    requires g > 0 && Root(g) == 1
    ensures Divides(g, n) ==> Root(n) == 1
  {
    hide Root;
    if Divides(g, n) {
      RootMultiple(g, n / g);
    }
  }

  // ---- Inverses

  lemma RootHasInverse(i: nat)
    requires i <= ORDER
    ensures Mul(Root(ORDER - i), Root(i)) == 1 && Root(i) != 0
  {
    hide Mul, Root;
    RootOfOrder();
    RootSum(ORDER - i, i);
    MulZeroLeft(Root(ORDER - i));
    MulCommutes(0, Root(ORDER - i));
  }

  /** The powers 2^0 .. 2^254 are different. */
  lemma RootsDiffer(i: nat, j: nat)
    requires i < j < ORDER
    ensures Root(i) != Root(j)
  {
    hide Mul, Root;
    if Root(i) == Root(j) {
      RootHasInverse(i);
      RootSum(j - i, i);
      MulCommutes(Root(j - i), Root(i));
      MulAssociates(Root(ORDER - i), Root(i), Root(j - i));
      MulOneLeft(Root(j - i));
      NoSmallerExponent(j - i);
    }
  }

  ghost function FirstRoots(n: nat): set<byte> {
    if n == 0 then {} else FirstRoots(n - 1) + {Root(n - 1)}
  }

  ghost predicate IsRootBelow(x: byte, n: nat) {
    exists i: nat :: i < n && x == Root(i)
  }

  lemma {:induction false} FirstRootsAre(n: nat)
    ensures forall x | x in FirstRoots(n) :: IsRootBelow(x, n)
  {
    hide Root;
    if n > 0 {
      FirstRootsAre(n - 1);
      forall x | x in FirstRoots(n)
        ensures IsRootBelow(x, n)
      {
        if x in FirstRoots(n - 1) {
          assert IsRootBelow(x, n - 1);
        }
      }
    }
  }

  lemma {:induction false} FirstRootsCount(n: nat)
    requires n <= ORDER
    ensures |FirstRoots(n)| == n && 0 !in FirstRoots(n)
  {
    hide Root;
    if n > 0 {
      FirstRootsCount(n - 1);
      RootHasInverse(n - 1);
      FirstRootsAre(n - 1);
      if Root(n - 1) in FirstRoots(n - 1) {
        assert IsRootBelow(Root(n - 1), n - 1);
        var i: nat :| i < n - 1 && Root(n - 1) == Root(i);
        RootsDiffer(i, n - 1);
      }
    }
  }

  ghost function UpTo(n: nat): (s: set<byte>)
    requires n < 256
    ensures |s| == n && forall x :: x in s <==> 1 <= x <= n
  {
    if n == 0 then {} else UpTo(n - 1) + {n}
  }

  lemma SameSize(a: set<byte>, b: set<byte>)
    requires a <= b && |a| == |b|
    ensures a == b
  {
    assert b == a + (b - a);
  }

  /** Every element but 0 is a power of 2. */
  lemma IsPower(x: byte) returns (i: nat)
    requires x != 0
    ensures i < ORDER && x == Root(i)
  {
    hide Root, FirstRoots, UpTo;
    FirstRootsCount(ORDER);
    FirstRootsAre(ORDER);
    assert FirstRoots(ORDER) <= UpTo(ORDER);
    SameSize(FirstRoots(ORDER), UpTo(ORDER));
    assert IsRootBelow(x, ORDER);
    i :| i < ORDER && x == Root(i);
  }

  /** A product is 0 only if a factor is. */
  lemma NoZeroDivisors(x: byte, y: byte)
    requires Mul(x, y) == 0
    ensures x == 0 || y == 0
  {
    hide Mul, Root;
    if x != 0 {
      var i := IsPower(x);
      RootHasInverse(i);
      var inverse := Root(ORDER - i);
      MulAssociates(inverse, x, y);
      MulOneLeft(y);
      MulZeroLeft(inverse);
      MulCommutes(inverse, 0);
    }
  }
}
