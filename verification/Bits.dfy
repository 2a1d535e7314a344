/**
 Unsigned machine integers as natural numbers, with the bit operators of C spelled out:
 a << k is a * Pow2(k), a >> k is a / Pow2(k), and the three bitwise operators are below.
 */
module Bits {
  import Arith

  type byte = n: int | 0 <= n < 256

  function Pow2(k: nat): (p: nat)
    ensures p >= 1
  {
    if k == 0 then 1 else 2 * Pow2(k - 1)
  }

  /** (a >> i) & 1, as a truth value. */
  predicate Bit(a: nat, i: nat) {
    if i == 0 then a % 2 == 1 else Bit(a / 2, i - 1)
  }

  function Xor(a: nat, b: nat): nat {
    if a == 0 && b == 0 then 0 else 2 * Xor(a / 2, b / 2) + (if a % 2 == b % 2 then 0 else 1)
  }

  function Or(a: nat, b: nat): nat {
    if a == 0 && b == 0 then 0 else 2 * Or(a / 2, b / 2) + (if a % 2 + b % 2 == 0 then 0 else 1)
  }

  function And(a: nat, b: nat): nat {
    if a == 0 || b == 0 then 0 else 2 * And(a / 2, b / 2) + (if a % 2 + b % 2 == 2 then 1 else 0)
  }

  // ---- Exclusive or

  lemma XorUnfold(a: nat, b: nat)
    ensures Xor(a, b) == 2 * Xor(a / 2, b / 2) + (if a % 2 == b % 2 then 0 else 1)
    ensures Xor(a, b) / 2 == Xor(a / 2, b / 2) && Xor(a, b) % 2 == if a % 2 == b % 2 then 0 else 1
  {
  }

  lemma {:induction false} XorCommutes(a: nat, b: nat)
    ensures Xor(a, b) == Xor(b, a)
  {
    if a + b > 0 {
      XorCommutes(a / 2, b / 2);
    }
  }

  lemma {:induction false} XorZero(a: nat)
    ensures Xor(a, 0) == a && Xor(0, a) == a && Xor(a, a) == 0
  {
    if a > 0 {
      XorZero(a / 2);
    }
  }

  lemma {:induction false} XorAssociates(a: nat, b: nat, c: nat)
    ensures Xor(Xor(a, b), c) == Xor(a, Xor(b, c))
  {
    if a + b + c > 0 {
      XorAssociates(a / 2, b / 2, c / 2);
      XorUnfold(a, b);
      XorUnfold(b, c);
      XorCons(Xor(a / 2, b / 2), if a % 2 == b % 2 then 0 else 1, c / 2, c % 2);
      XorCons(a / 2, a % 2, Xor(b / 2, c / 2), if b % 2 == c % 2 then 0 else 1);
    }
  }

  lemma XorCons(a: nat, i: nat, b: nat, j: nat)
    requires i <= 1 && j <= 1
    ensures Xor(2 * a + i, 2 * b + j) == 2 * Xor(a, b) + (if i == j then 0 else 1)
  {
    XorUnfold(2 * a + i, 2 * b + j);
    assert (2 * a + i) / 2 == a && (2 * b + j) / 2 == b;
  }

  lemma XorExchange(a: nat, b: nat, c: nat, d: nat)
    ensures Xor(Xor(a, b), Xor(c, d)) == Xor(Xor(a, c), Xor(b, d))
  {
    calc {
      Xor(Xor(a, b), Xor(c, d));
      { XorAssociates(a, b, Xor(c, d)); XorAssociates(b, c, d); }
      Xor(a, Xor(Xor(b, c), d));
      { XorCommutes(b, c); XorAssociates(c, b, d); }
      Xor(a, Xor(c, Xor(b, d)));
      { XorAssociates(a, c, Xor(b, d)); }
      Xor(Xor(a, c), Xor(b, d));
    }
  }

  lemma XorCancels(a: nat, b: nat)
    ensures Xor(Xor(a, b), b) == a && Xor(a, Xor(a, b)) == b
  {
    XorAssociates(a, b, b);
    XorAssociates(a, a, b);
    XorZero(a);
    XorZero(b);
  }

  lemma XorDouble(a: nat, b: nat)
    ensures Xor(2 * a, 2 * b) == 2 * Xor(a, b)
  {
    XorCons(a, 0, b, 0);
  }

  lemma {:induction false} XorBound(a: nat, b: nat, n: nat)
    requires a < Pow2(n) && b < Pow2(n)
    ensures Xor(a, b) < Pow2(n)
  {
    if n > 0 && a + b > 0 {
      XorBound(a / 2, b / 2, n - 1);
    }
  }

  lemma XorOfBytes(a: byte, b: byte)
    ensures Xor(a, b) < 256
  {
    Pow2Eight();
    XorBound(a, b, 8);
  }

  /** The bit 2^n cancels when both operands have it, and stays when just one has it. */
  lemma {:induction false} XorTopBit(a: nat, b: nat, n: nat)
    requires a < Pow2(n + 1) && b < Pow2(n + 1)
    ensures Xor(a, b) < Pow2(n) <==> (a < Pow2(n) <==> b < Pow2(n))
    ensures Xor(a, b) < Pow2(n + 1)
  {
    XorBound(a, b, n + 1);
    XorUnfold(a, b);
    if n > 0 {
      XorTopBit(a / 2, b / 2, n - 1);
    }
  }

  // ---- Or

  lemma {:induction false} OrAboveAndBelow(high: nat, low: nat, k: nat)
    requires low < Pow2(k)
    ensures Or(high * Pow2(k), low) == high * Pow2(k) + low
  {
    hide Or;
    if k == 0 {
      OrZero(high);
    } else {
      var h := high * Pow2(k - 1);
      assert high * Pow2(k) == 2 * h;
      OrAboveAndBelow(high, low / 2, k - 1);
      OrUnfold(2 * h, low);
    }
  }

  lemma {:induction false} XorAboveAndBelow(high: nat, low: nat, k: nat)
    requires low < Pow2(k)
    ensures Xor(high * Pow2(k), low) == high * Pow2(k) + low
  {
    hide Xor;
    if k == 0 {
      XorZero(high);
    } else {
      var h := high * Pow2(k - 1);
      assert high * Pow2(k) == 2 * h;
      XorAboveAndBelow(high, low / 2, k - 1);
      XorUnfold(2 * h, low);
    }
  }

  lemma OrUnfold(a: nat, b: nat)
    ensures Or(a, b) == 2 * Or(a / 2, b / 2) + (if a % 2 + b % 2 == 0 then 0 else 1)
  {
  }

  lemma {:induction false} OrZero(a: nat)
    ensures Or(a, 0) == a
  {
    if a > 0 {
      OrZero(a / 2);
    }
  }

  // ---- Single bits

  lemma {:induction false} XorBit(a: nat, b: nat, i: nat)
    ensures Bit(Xor(a, b), i) == (Bit(a, i) != Bit(b, i))
  {
    XorUnfold(a, b);
    if i > 0 {
      var r := Xor(a, b);
      XorBit(a / 2, b / 2, i - 1);
      assert Bit(r, i) == Bit(r / 2, i - 1);
    } else {
      assert a % 2 in {0, 1} && b % 2 in {0, 1};
    }
  }

  lemma {:induction false} OrBit(a: nat, b: nat, i: nat)
    ensures Bit(Or(a, b), i) == (Bit(a, i) || Bit(b, i))
  {
    if a == 0 && b == 0 {
      ZeroBit(i);
    } else if i > 0 {
      OrBit(a / 2, b / 2, i - 1);
    }
  }

  lemma {:induction false} AndBit(a: nat, b: nat, i: nat)
    ensures Bit(And(a, b), i) == (Bit(a, i) && Bit(b, i))
  {
    if a == 0 || b == 0 {
      ZeroBit(i);
    } else if i > 0 {
      AndBit(a / 2, b / 2, i - 1);
    }
  }

  lemma {:induction false} ZeroBit(i: nat)
    ensures !Bit(0, i)
  {
    if i > 0 {
      ZeroBit(i - 1);
    }
  }

  lemma {:induction false} Pow2Bit(k: nat, i: nat)
    ensures Bit(Pow2(k), i) <==> i == k
  {
    if k == 0 && i > 0 {
      ZeroBit(i - 1);
    } else if i > 0 {
      Pow2Bit(k - 1, i - 1);
    }
  }

  /** 2^n - 1 has exactly the bits below n. */
  lemma {:induction false} MaskBit(n: nat, i: nat)
    ensures Bit(Pow2(n) - 1, i) <==> i < n
  {
    if n == 0 {
      ZeroBit(i);
    } else if i > 0 {
      assert (Pow2(n) - 1) / 2 == Pow2(n - 1) - 1;
      MaskBit(n - 1, i - 1);
    }
  }

  lemma {:induction false} OrBound(a: nat, b: nat, n: nat)
    requires a < Pow2(n) && b < Pow2(n)
    ensures Or(a, b) < Pow2(n)
  {
    if n > 0 && a + b > 0 {
      OrBound(a / 2, b / 2, n - 1);
    }
  }

  lemma {:induction false} AndBound(a: nat, b: nat)
    ensures And(a, b) <= a
  {
    if a > 0 && b > 0 {
      AndBound(a / 2, b / 2);
    }
  }

  lemma Pow2Eight()
    ensures Pow2(8) == 256
  {
    assert Pow2(4) == 16;
  }

  lemma HalfOfPrefix(y: nat, i: nat)
    ensures y / Pow2(i) / 2 == y / Pow2(i + 1)
  {
    Arith.DivideByProduct(y, Pow2(i), 2);
  }

  // ---- Writing one bit of a byte

  /** b |= 1 << i, or b &= (1 << i) ^ 0xFF. */
  function WithBit(b: byte, i: nat, value: bool): (r: byte)
    requires i < 8
    ensures forall j: nat | j < 8 :: Bit(r, j) == if j == i then value else Bit(b, j)
  {
    WithBitFits(b, i);
    WithBitBits(b, i);
    if value then Or(b, Pow2(i)) else And(b, Xor(Pow2(i), 0xFF))
  }

  lemma WithBitFits(b: byte, i: nat)
    requires i < 8
    ensures Or(b, Pow2(i)) < 256 && And(b, Xor(Pow2(i), 0xFF)) < 256
  {
    Pow2Eight();
    Pow2Monotone(i, 7);
    OrBound(b, Pow2(i), 8);
    AndBound(b, Xor(Pow2(i), 0xFF));
  }

  lemma {:induction false} Pow2Monotone(i: nat, j: nat)
    requires i <= j
    ensures Pow2(i) <= Pow2(j)
  {
    if i < j {
      Pow2Monotone(i, j - 1);
    }
  }

  lemma WithBitBits(b: byte, i: nat)
    requires i < 8
    ensures forall j: nat | j < 8 :: Bit(Or(b, Pow2(i)), j) == (j == i || Bit(b, j))
    ensures forall j: nat | j < 8 :: Bit(And(b, Xor(Pow2(i), 0xFF)), j) == (j != i && Bit(b, j))
  {
    forall j: nat | j < 8
      ensures Bit(Or(b, Pow2(i)), j) == (j == i || Bit(b, j))
      ensures Bit(And(b, Xor(Pow2(i), 0xFF)), j) == (j != i && Bit(b, j))
    {
      Pow2Bit(i, j);
      OrBit(b, Pow2(i), j);
      XorBit(Pow2(i), 0xFF, j);
      AndBit(b, Xor(Pow2(i), 0xFF), j);
      Pow2Eight();
      MaskBit(8, j);
    }
  }

  // ---- Bit strings, most significant bit first

  /** The n low-order bits of v. */
  function BitsOf(v: nat, n: nat): (b: seq<bool>)
    ensures |b| == n
    ensures forall i | 0 <= i < n :: b[i] == Bit(v, n - 1 - i)
  {
    if n == 0 then [] else BitsOf(v / 2, n - 1) + [v % 2 == 1]
  }

  function Zeros(n: nat): (z: seq<bool>)
    ensures |z| == n && forall i | 0 <= i < n :: !z[i]
  {
    seq(n, _ => false)
  }

  function ValueOf(b: seq<bool>): nat {
    if b == [] then 0 else 2 * ValueOf(b[..|b| - 1]) + (if b[|b| - 1] then 1 else 0)
  }

  lemma {:induction false} ValueOfBits(v: nat, n: nat)
    requires v < Pow2(n)
    ensures ValueOf(BitsOf(v, n)) == v
  {
    if n > 0 {
      ValueOfBits(v / 2, n - 1);
      assert BitsOf(v, n)[..n - 1] == BitsOf(v / 2, n - 1);
    }
  }

  lemma {:induction false} BitsOfValue(b: seq<bool>)
    ensures ValueOf(b) < Pow2(|b|) && BitsOf(ValueOf(b), |b|) == b
  {
    if b != [] {
      BitsOfValue(b[..|b| - 1]);
      assert b == b[..|b| - 1] + [b[|b| - 1]];
    }
  }

  /** Bit i of a byte buffer, each byte from its most significant bit down. */
  predicate BufferBit(buffer: seq<byte>, i: nat)
    requires i / 8 < |buffer|
  {
    Bit(buffer[i / 8], 7 - i % 8)
  }

  /** The first n bits of a byte buffer. */
  function BufferBits(buffer: seq<byte>, n: nat): (b: seq<bool>)
    requires n <= 8 * |buffer|
    ensures |b| == n && forall i | 0 <= i < n :: b[i] == BufferBit(buffer, i)
  {
    seq(n, i requires 0 <= i < n => BufferBit(buffer, i))
  }

  /** The whole bytes of a bit string. */
  function BytesOf(b: seq<bool>): (s: seq<byte>)
    ensures |s| == |b| / 8
  {
    seq(|b| / 8, j requires 0 <= j < |b| / 8 => ByteOf(b[8 * j..8 * j + 8]))
  }

  function ByteOf(b: seq<bool>): byte
    requires |b| == 8
  {
    BitsOfValue(b);
    Pow2Eight();
    ValueOf(b)
  }

  lemma BitsOfOneByte(buffer: seq<byte>, n: nat, j: nat)
    requires j < n <= |buffer|
    ensures BufferBits(buffer, 8 * n)[8 * j..8 * j + 8] == BitsOf(buffer[j], 8)
  {
    hide Bit, BitsOf, BufferBits;
    forall i: nat | i < 8
      ensures BufferBits(buffer, 8 * n)[8 * j..8 * j + 8][i] == BitsOf(buffer[j], 8)[i]
    {
      BufferBitAt(buffer, j, i);
    }
  }

  lemma BufferBitAt(buffer: seq<byte>, j: nat, i: nat)
    requires j < |buffer| && i < 8
    ensures (8 * j + i) / 8 == j && BufferBit(buffer, 8 * j + i) == Bit(buffer[j], 7 - i)
  {
    hide Bit;
    assert (8 * j + i) / 8 == j && (8 * j + i) % 8 == i;
  }

  lemma BytesOfBufferBits(buffer: seq<byte>, n: nat)
    requires n <= |buffer|
    ensures BytesOf(BufferBits(buffer, 8 * n)) == buffer[..n]
  {
    hide Bit, BitsOf, ValueOf, BufferBits;
    var bits := BufferBits(buffer, 8 * n);
    forall j | 0 <= j < n
      ensures BytesOf(bits)[j] == buffer[j]
    {
      BitsOfOneByte(buffer, n, j);
      Pow2Eight();
      ValueOfBits(buffer[j], 8);
    }
  }
}
