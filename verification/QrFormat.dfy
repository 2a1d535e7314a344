/**
 Format information: section 7.9 of ISO/IEC 18004:2015.
 */
module QrFormat {
  import opened Bch
  import opened Bits
  import opened GaloisField
  import opened QrTables
  import opened QrGrid
  import opened QrFunctionModules
  import opened QrMask

  // ---- The fifteen format bits

  /** The error correction level and the mask, as the five data bits. */
  function FormatData(ecl: Ecc, mask: Mask): (d: nat)
    ensures d < 32 && d % 8 == mask
  {
    (match ecl case 0 => 1 case 1 => 0 case 2 => 3 case 3 => 2) * 8 + mask
  }

  lemma Powers()
    ensures Pow2(9) == 512 && Pow2(10) == 1024 && Pow2(11) == 2048 && Pow2(15) == 32768
  {
    assert Pow2(5) == 32;
    assert Pow2(10) == 1024;
  }

  /** The level and the mask with their ten check bits. */
  ghost function CheckedFormat(ecl: Ecc, mask: Mask): nat {
    Powers();
    Or(FormatData(ecl, mask) * 1024, Division(FormatData(ecl, mask), 9, 0x537, 10))
  }

  ghost function FormatBits(ecl: Ecc, mask: Mask): nat {
    Xor(CheckedFormat(ecl, mask), 0x5412)
  }

  /** The bits are a multiple of the generator 0x537 but for the fixed pattern 0x5412, and the data bits can be read
      back from them, so they determine level and mask. */
  lemma FormatBitsDetermine(ecl: Ecc, mask: Mask)
    ensures exists q :: Xor(FormatBits(ecl, mask), 0x5412) == PlainProduct(0x537, q)
    ensures Xor(FormatBits(ecl, mask), 0x5412) / 1024 == FormatData(ecl, mask)
    ensures FormatBits(ecl, mask) < Pow2(15)
  {
    hide Xor, Or, PlainProduct, DivisionQuotient, FormatData, Division, Pow2;
    Powers();
    CheckedData(FormatData(ecl, mask), 9, 0x537);
    XorCancels(CheckedFormat(ecl, mask), 0x5412);
    FormatFits(FormatData(ecl, mask), CheckedFormat(ecl, mask));
    XorBound(CheckedFormat(ecl, mask), 0x5412, 15);
  }

  lemma FormatFits(data: nat, bits: nat)
    requires data < 32 && bits / 1024 == data
    ensures bits < Pow2(15) == 32768
  {
    Powers();
  }

  // ---- Drawing them

  /** The modules that drawFormatBits writes, in the order in which it writes them. */
  function FormatPos(size: int, t: nat): Point
    requires t < 31
  {
    if t <= 5 then (8, t)
    else if t == 6 then (8, 7)
    else if t == 7 then (8, 8)
    else if t == 8 then (7, 8)
    else if t < 15 then (14 - t, 8)
    else if t < 23 then (size - 1 - (t - 15), 8)
    else if t < 30 then (8, size - 15 + (t - 15))
    else (8, size - 8)
  }

  /** The colour of the t-th of them: two copies of the bits, and one module that is always dark. */
  predicate FormatColor(bits: nat, t: nat) {
    if t < 15 then Bit(bits, t) else if t < 30 then Bit(bits, t - 15) else true
  }

  ghost function FormatModules(size: int, n: nat): set<Point>
    requires n <= 31
  {
    set t | 0 <= t < n :: FormatPos(size, t)
  }

  ghost function FormatDark(size: int, bits: nat, n: nat): set<Point>
    requires n <= 31
  {
    set t | 0 <= t < n && FormatColor(bits, t) :: FormatPos(size, t)
  }

  /** The grid with the first n format modules drawn. */
  ghost function FormatDrawn(dark: set<Point>, size: int, bits: nat, n: nat): set<Point>
    requires n <= 31
  {
    (dark - FormatModules(size, n)) + FormatDark(size, bits, n)
  }

  lemma FormatPosInjective(size: int, s: nat, t: nat)
    requires size >= 21 && s < 31 && t < 31 && FormatPos(size, s) == FormatPos(size, t)
    ensures s == t
  {
  }

  lemma FormatStep(dark: set<Point>, size: int, bits: nat, t: nat)
    requires size >= 21 && t < 31
    ensures InBounds(size, FormatPos(size, t).0, FormatPos(size, t).1)
    ensures FormatDrawn(dark, size, bits, t + 1) ==
            Painted(FormatDrawn(dark, size, bits, t), FormatPos(size, t), FormatColor(bits, t))
  {
    var p := FormatPos(size, t);
    hide FormatColor;
    assert FormatModules(size, t + 1) == FormatModules(size, t) + {p};
    assert FormatDark(size, bits, t + 1) == FormatDark(size, bits, t) + (if FormatColor(bits, t) then {p} else {});
    if p in FormatDark(size, bits, t) {
      var s :| 0 <= s < t && FormatPos(size, s) == p;
      FormatPosInjective(size, s, t);
    }
  }

  lemma FormatModulesAreFunction(ver: Version)
    ensures FormatModules(SizeOf(ver), 31) <= FunctionModules(ver)
    ensures FormatModules(SizeOf(ver), 31) <= FinderModules(SizeOf(ver))
  {
    hide Rect, TimingModules, AlignColumns, VersionModules;
    forall t | 0 <= t < 31
      ensures FormatPos(SizeOf(ver), t) in FinderModules(SizeOf(ver))
    {
    }
  }

  /** drawFormatBits: it redraws every format module and nothing else. */
  method DrawFormatBits(ecl: Ecc, mask: Mask, qrcode: array<byte>)
    requires IsGrid(qrcode[..])
    modifies qrcode
    ensures IsGrid(qrcode[..]) && qrcode[0] == old(qrcode[0])
    ensures Dark(qrcode[..]) == FormatDrawn(old(Dark(qrcode[..])), qrcode[0], FormatBits(ecl, mask), 31)
  {
    hide FormatDrawn, Dark, BufferLen, Bit, FormatBits, Painted;
    var size: int := qrcode[0];
    ghost var before := Dark(qrcode[..]);
    var bits := ComputeFormatBits(ecl, mask);
    FormatStarts(before, size, bits);
    for i := 0 to 6
      invariant IsGrid(qrcode[..]) && qrcode[0] == size
      invariant Dark(qrcode[..]) == FormatDrawn(before, size, bits, i)
    {
      FormatStep(before, size, bits, i);
      SetModule(qrcode, 8, i, Bit(bits, i));
    }
    FormatStep(before, size, bits, 6);
    SetModule(qrcode, 8, 7, Bit(bits, 6));
    FormatStep(before, size, bits, 7);
    SetModule(qrcode, 8, 8, Bit(bits, 7));
    FormatStep(before, size, bits, 8);
    SetModule(qrcode, 7, 8, Bit(bits, 8));
    for i := 9 to 15
      invariant IsGrid(qrcode[..]) && qrcode[0] == size
      invariant Dark(qrcode[..]) == FormatDrawn(before, size, bits, i)
    {
      FormatStep(before, size, bits, i);
      SetModule(qrcode, 14 - i, 8, Bit(bits, i));
    }
    for i := 0 to 8
      invariant IsGrid(qrcode[..]) && qrcode[0] == size
      invariant Dark(qrcode[..]) == FormatDrawn(before, size, bits, 15 + i)
    {
      FormatStep(before, size, bits, 15 + i);
      SetModule(qrcode, size - 1 - i, 8, Bit(bits, i));
    }
    for i := 8 to 15
      invariant IsGrid(qrcode[..]) && qrcode[0] == size
      invariant Dark(qrcode[..]) == FormatDrawn(before, size, bits, 15 + i)
    {
      FormatStep(before, size, bits, 15 + i);
      SetModule(qrcode, 8, size - 15 + i, Bit(bits, i));
    }
    FormatStep(before, size, bits, 30);
    SetModule(qrcode, 8, size - 8, true);
  }

  lemma FormatStarts(dark: set<Point>, size: int, bits: nat)
    ensures FormatDrawn(dark, size, bits, 0) == dark
  {
  }

  method ComputeFormatBits(ecl: Ecc, mask: Mask) returns (bits: nat)
    ensures bits == FormatBits(ecl, mask)
  {
    hide Xor, Or;
    var data := FormatData(ecl, mask);
    var rem := data;
    Powers();
    for i := 0 to 10
      invariant rem == Division(data, 9, 0x537, i) < 1024
    {
      assert rem / 512 == if rem < 512 then 0 else 1;
      rem := Xor(2 * rem, rem / 512 * 0x537);
    }
    bits := Xor(Or(data * 1024, rem), 0x5412);
  }

  // ---- Reading them

  /** Where the copies of the format bits are, from bit 14 down: the first around the corner of the upper left finder
      pattern, over the timing patterns; the second up the lower left one and then to the right edge. */
  function FormatPath(size: int, second: bool): (path: seq<Point>)
    ensures |path| == 15
  {
    if second then
      [(8, size - 1), (8, size - 2), (8, size - 3), (8, size - 4), (8, size - 5), (8, size - 6), (8, size - 7),
       (size - 8, 8), (size - 7, 8), (size - 6, 8), (size - 5, 8), (size - 4, 8), (size - 3, 8), (size - 2, 8),
       (size - 1, 8)]
    else
      [(0, 8), (1, 8), (2, 8), (3, 8), (4, 8), (5, 8), (7, 8), (8, 8),
       (8, 7), (8, 5), (8, 4), (8, 3), (8, 2), (8, 1), (8, 0)]
  }

  ghost function FormatString(dark: set<Point>, size: int, second: bool): (b: seq<bool>)
    ensures |b| == 15
  {
    seq(15, i requires 0 <= i < 15 => FormatPath(size, second)[i] in dark)
  }

  ghost function ReadFormatBits(dark: set<Point>, size: int, second: bool): nat {
    ValueOf(FormatString(dark, size, second))
  }

  /** Whatever else the grid holds, both copies of its format bits give back the level and the mask. */
  lemma FormatReadsBack(dark: set<Point>, size: int, ecl: Ecc, mask: Mask, second: bool)
    requires size >= 21
    ensures Xor(ReadFormatBits(FormatDrawn(dark, size, FormatBits(ecl, mask), 31), size, second), 0x5412) / 1024 ==
              FormatData(ecl, mask)
  {
    var bits := FormatBits(ecl, mask);
    hide FormatBits, FormatData, FormatDrawn, FormatString;
    FormatBitsDetermine(ecl, mask);
    FormatStringReadsBack(dark, size, bits, second);
    ValueOfBits(bits, 15);
  }

  lemma FormatPathIs(size: int, i: nat, second: bool)
    requires i < 15
    ensures FormatPath(size, second)[i] == FormatPos(size, if second then 29 - i else 14 - i)
  {
    if second {
      SecondPathIs(size, i);
    }
  }

  lemma SecondPathIs(size: int, i: nat)
    requires i < 15
    ensures FormatPath(size, true)[i] == FormatPos(size, 29 - i)
  {
  }

  lemma FormatStringReadsBack(dark: set<Point>, size: int, bits: nat, second: bool)
    requires size >= 21
    ensures FormatString(FormatDrawn(dark, size, bits, 31), size, second) == BitsOf(bits, 15)
  {
    hide FormatDrawn, Bit, FormatPos, FormatPath;
    var s, b := FormatString(FormatDrawn(dark, size, bits, 31), size, second), BitsOf(bits, 15);
    forall i | 0 <= i < 15
      ensures s[i] == b[i]
    {
      FormatPathIs(size, i, second);
      FormatModuleColor(dark, size, bits, if second then 29 - i else 14 - i);
    }
  }

  /** The module beside the lower left finder pattern that is always dark. */
  lemma DarkModuleIsDark(dark: set<Point>, size: int, bits: nat)
    requires size >= 21
    ensures (8, size - 8) in FormatDrawn(dark, size, bits, 31)
  {
    hide FormatDrawn;
    FormatModuleColor(dark, size, bits, 30);
  }

  lemma FormatModuleColor(dark: set<Point>, size: int, bits: nat, t: nat)
    requires size >= 21 && t < 31
    ensures FormatPos(size, t) in FormatDrawn(dark, size, bits, 31) <==> FormatColor(bits, t)
  {
    hide FormatColor;
    var p := FormatPos(size, t);
    assert p in FormatModules(size, 31);
    if p in FormatDark(size, bits, 31) {
      var s :| 0 <= s < 31 && FormatColor(bits, s) && FormatPos(size, s) == p;
      FormatPosInjective(size, s, t);
    }
  }
}
