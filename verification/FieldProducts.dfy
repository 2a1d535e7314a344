/** A few products in GF(2^8), step by step: the certificate for the order of 2. */
module FieldProducts {
  import opened Bits
  import opened GaloisField

  /** One step of the multiplication: r is x * y when m is x * (y / 2). */
  lemma Step(x: byte, y: nat, m: byte, t: byte, r: byte)
    requires y > 0 && (if y == 1 then m == 0 else Mul(x, y / 2) == m)
    requires if m < 128 then t == 2 * m else t == Xor(2 * m, 285)
    requires if y % 2 == 0 then r == t else if t == 0 then r == x else r == Xor(t, x)
    ensures Mul(x, y) == r
  {
    hide Xor, Mul, TimesX;
    MulUnfold(x, y);
    TimesXIs(m);
    XorZero(t);
    XorZero(x);
    XorZero(2 * m);
  }

  lemma MulUnfold(x: byte, y: nat)
    requires y > 0
    ensures Mul(x, y) == Add(TimesX(Mul(x, y / 2)), Scale(y % 2, x)) && Mul(x, 0) == 0
  {
  }

  lemma Product2By2()
    ensures Mul(2, 2) == 4
  {
    hide Mul, TimesX;
    Step(2, 1, 0, 0, 2);
    Step(2, 2, 2, 4, 4);
  }

  lemma Product4By4()
    ensures Mul(4, 4) == 16
  {
    hide Mul, TimesX;
    Step(4, 1, 0, 0, 4);
    Step(4, 2, 4, 8, 8);
    Step(4, 4, 8, 16, 16);
  }

  lemma Product16By16()
    ensures Mul(16, 16) == 29
  {
    hide Mul, TimesX;
    Step(16, 1, 0, 0, 16);
    Step(16, 2, 16, 32, 32);
    Step(16, 4, 32, 64, 64);
    Step(16, 8, 64, 128, 128);
    assert Xor(256, 285) == 29;
    Step(16, 16, 128, 29, 29);
  }

  lemma Product29By29()
    ensures Mul(29, 29) == 76
  {
    hide Mul, TimesX;
    Step(29, 1, 0, 0, 29);
    assert Xor(58, 29) == 39;
    Step(29, 3, 29, 58, 39);
    assert Xor(78, 29) == 83;
    Step(29, 7, 39, 78, 83);
    Step(29, 14, 83, 166, 166);
    assert Xor(332, 285) == 81;
    assert Xor(81, 29) == 76;
    Step(29, 29, 166, 81, 76);
  }

  lemma Product76By76()
    ensures Mul(76, 76) == 157
  {
    hide Mul, TimesX;
    Step(76, 1, 0, 0, 76);
    Step(76, 2, 76, 152, 152);
    assert Xor(304, 285) == 45;
    Step(76, 4, 152, 45, 45);
    assert Xor(90, 76) == 22;
    Step(76, 9, 45, 90, 22);
    assert Xor(44, 76) == 96;
    Step(76, 19, 22, 44, 96);
    Step(76, 38, 96, 192, 192);
    assert Xor(384, 285) == 157;
    Step(76, 76, 192, 157, 157);
  }

  lemma Product157By157()
    ensures Mul(157, 157) == 95
  {
    hide Mul, TimesX;
    Step(157, 1, 0, 0, 157);
    assert Xor(314, 285) == 39;
    Step(157, 2, 157, 39, 39);
    Step(157, 4, 39, 78, 78);
    assert Xor(156, 157) == 1;
    Step(157, 9, 78, 156, 1);
    assert Xor(2, 157) == 159;
    Step(157, 19, 1, 2, 159);
    assert Xor(318, 285) == 35;
    assert Xor(35, 157) == 190;
    Step(157, 39, 159, 35, 190);
    assert Xor(380, 285) == 97;
    Step(157, 78, 190, 97, 97);
    assert Xor(194, 157) == 95;
    Step(157, 157, 97, 194, 95);
  }

  lemma Product95By95()
    ensures Mul(95, 95) == 133
  {
    hide Mul, TimesX;
    Step(95, 1, 0, 0, 95);
    Step(95, 2, 95, 190, 190);
    assert Xor(380, 285) == 97;
    assert Xor(97, 95) == 62;
    Step(95, 5, 190, 97, 62);
    assert Xor(124, 95) == 35;
    Step(95, 11, 62, 124, 35);
    assert Xor(70, 95) == 25;
    Step(95, 23, 35, 70, 25);
    assert Xor(50, 95) == 109;
    Step(95, 47, 25, 50, 109);
    assert Xor(218, 95) == 133;
    Step(95, 95, 109, 218, 133);
  }

  lemma Product133By133()
    ensures Mul(133, 133) == 2
  {
    hide Mul, TimesX;
    Step(133, 1, 0, 0, 133);
    assert Xor(266, 285) == 23;
    Step(133, 2, 133, 23, 23);
    Step(133, 4, 23, 46, 46);
    Step(133, 8, 46, 92, 92);
    Step(133, 16, 92, 184, 184);
    assert Xor(368, 285) == 109;
    assert Xor(109, 133) == 232;
    Step(133, 33, 184, 109, 232);
    assert Xor(464, 285) == 205;
    Step(133, 66, 232, 205, 205);
    assert Xor(410, 285) == 135;
    assert Xor(135, 133) == 2;
    Step(133, 133, 205, 135, 2);
  }

  lemma Product29By16()
    ensures Mul(29, 16) == 205
  {
    hide Mul, TimesX;
    Step(29, 1, 0, 0, 29);
    Step(29, 2, 29, 58, 58);
    Step(29, 4, 58, 116, 116);
    Step(29, 8, 116, 232, 232);
    assert Xor(464, 285) == 205;
    Step(29, 16, 232, 205, 205);
  }

  lemma Product157By95()
    ensures Mul(157, 95) == 217
  {
    hide Mul, TimesX;
    Step(157, 1, 0, 0, 157);
    assert Xor(314, 285) == 39;
    Step(157, 2, 157, 39, 39);
    assert Xor(78, 157) == 211;
    Step(157, 5, 39, 78, 211);
    assert Xor(422, 285) == 187;
    assert Xor(187, 157) == 38;
    Step(157, 11, 211, 187, 38);
    assert Xor(76, 157) == 209;
    Step(157, 23, 38, 76, 209);
    assert Xor(418, 285) == 191;
    assert Xor(191, 157) == 34;
    Step(157, 47, 209, 191, 34);
    assert Xor(68, 157) == 217;
    Step(157, 95, 34, 68, 217);
  }
}
