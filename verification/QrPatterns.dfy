/**
 The light parts of the function patterns, and the version information: sections 6.3 and 7.10
 of ISO/IEC 18004:2015.
 */
module QrPatterns {
  import opened Bch
  import opened Bits
  import opened GaloisField
  import Arith
  import opened QrTables
  import opened QrGrid
  import opened QrFunctionModules

  ghost function PaintedBoth(dark: set<Point>, p: Point, isDark: bool): set<Point> {
    Painted(Painted(dark, p, isDark), (p.1, p.0), isDark)
  }

  /** Sets a module and its mirror image in the diagonal. */
  method SetBoth(qrcode: array<byte>, x: int, y: int, isDark: bool)
    requires IsGrid(qrcode[..]) && InBounds(qrcode[0], x, y)
    modifies qrcode
    ensures IsGrid(qrcode[..]) && qrcode[0] == old(qrcode[0])
    ensures Dark(qrcode[..]) == PaintedBoth(old(Dark(qrcode[..])), (x, y), isDark)
  {
    hide Dark, BufferLen, Painted;
    SetModule(qrcode, x, y, isDark);
    SetModule(qrcode, y, x, isDark);
  }

  // ---- Timing patterns

  /** Every other module of the timing patterns, between the finder patterns. */
  ghost function TimingLight(size: int, end: int): (r: set<Point>)
    ensures forall p: Point :: p in r <==>
              (p.0 == 6 && 7 <= p.1 < end && p.1 % 2 == 1) || (p.1 == 6 && 7 <= p.0 < end && p.0 % 2 == 1)
  {
    (set i | 7 <= i < end && i % 2 == 1 :: (6, i)) + (set i | 7 <= i < end && i % 2 == 1 :: (i, 6))
  }

  ghost function TimingDrawn(dark: set<Point>, size: int, end: int): set<Point> {
    dark - TimingLight(size, end)
  }

  lemma TimingStep(dark: set<Point>, size: int, i: int)
    requires i >= 7 && i % 2 == 1
    ensures TimingDrawn(dark, size, i + 2) == PaintedBoth(TimingDrawn(dark, size, i), (6, i), false)
    ensures TimingDrawn(dark, size, 7) == dark
    ensures size % 2 == 1 ==> TimingDrawn(dark, size, size - 6) == TimingDrawn(dark, size, size - 7)
  {
    hide TimingLight;
  }

  method DrawTimingLight(qrcode: array<byte>)
    requires IsGrid(qrcode[..]) && qrcode[0] % 2 == 1
    modifies qrcode
    ensures IsGrid(qrcode[..]) && qrcode[0] == old(qrcode[0])
    ensures Dark(qrcode[..]) == TimingDrawn(old(Dark(qrcode[..])), qrcode[0], qrcode[0] - 7)
  {
    hide Dark, BufferLen, TimingDrawn, PaintedBoth;
    var size: int := qrcode[0];
    ghost var before := Dark(qrcode[..]);
    TimingStep(before, size, 7);
    var i: int := 7;
    while i < size - 7
      invariant 7 <= i <= size - 6 && i % 2 == 1
      invariant IsGrid(qrcode[..]) && qrcode[0] == size
      invariant Dark(qrcode[..]) == TimingDrawn(before, size, i)
    {
      TimingStep(before, size, i);
      SetBoth(qrcode, 6, i, false);
      i := i + 2;
    }
  }

  // ---- Finder patterns

  function Distance(dx: int, dy: int): int {
    var ax, ay := if dx < 0 then -dx else dx, if dy < 0 then -dy else dy;
    if ay > ax then ay else ax
  }

  /** The light rings around the centre of a finder pattern. */
  predicate InFinderRing(x: int, y: int, p: Point) {
    Distance(p.0 - x, p.1 - y) in {2, 4}
  }

  predicate InFinderLight(size: int, p: Point) {
    InFinderRing(3, 3, p) || InFinderRing(size - 4, 3, p) || InFinderRing(3, size - 4, p)
  }

  /** Whether the loops over dy and dx have passed the offsets (u, v). */
  predicate Passed(u: int, v: int, dx: int, dy: int) {
    v < dy || (v == dy && u < dx)
  }

  /** The finder modules that the loops have made light when they reach offset (dx, dy). */
  predicate FinderPassed(size: int, p: Point, dx: int, dy: int) {
    || (InFinderRing(3, 3, p) && Passed(p.0 - 3, p.1 - 3, dx, dy))
    || (InFinderRing(size - 4, 3, p) && Passed(p.0 - (size - 4), p.1 - 3, dx, dy))
    || (InFinderRing(3, size - 4, p) && Passed(p.0 - 3, p.1 - (size - 4), dx, dy))
  }

  ghost function FinderDrawn(dark: set<Point>, size: int, dx: int, dy: int): (r: set<Point>)
    ensures forall p :: p in r <==> p in dark && !FinderPassed(size, p, dx, dy)
  {
    set p | p in dark && !FinderPassed(size, p, dx, dy)
  }

  lemma FinderStep(dark: set<Point>, size: int, dx: int, dy: int)
    requires -4 <= dx <= 4 && -4 <= dy <= 4
    ensures FinderDrawn(dark, size, dx + 1, dy) ==
            if Distance(dx, dy) in {2, 4}
            then FinderDrawn(dark, size, dx, dy)
                 - {(3 + dx, 3 + dy)} - {(size - 4 + dx, 3 + dy)} - {(3 + dx, size - 4 + dy)}
            else FinderDrawn(dark, size, dx, dy)
  {
    hide InFinderRing, Passed, Distance;
    forall p: Point
      ensures FinderPassed(size, p, dx + 1, dy) <==>
              (FinderPassed(size, p, dx, dy) ||
               (Distance(dx, dy) in {2, 4}
                && p in {(3 + dx, 3 + dy), (size - 4 + dx, 3 + dy), (3 + dx, size - 4 + dy)}))
    {
      RingStep(3, 3, p, dx, dy);
      RingStep(size - 4, 3, p, dx, dy);
      RingStep(3, size - 4, p, dx, dy);
    }
  }

  lemma RingStep(x: int, y: int, p: Point, dx: int, dy: int)
    ensures (InFinderRing(x, y, p) && Passed(p.0 - x, p.1 - y, dx + 1, dy)) <==>
            ((InFinderRing(x, y, p) && Passed(p.0 - x, p.1 - y, dx, dy)) ||
             (Distance(dx, dy) in {2, 4} && p == (x + dx, y + dy)))
  {
  }

  lemma FinderRows(dark: set<Point>, size: int, dy: int)
    ensures FinderDrawn(dark, size, 5, dy) == FinderDrawn(dark, size, -4, dy + 1)
    ensures FinderDrawn(dark, size, -4, -4) == dark
    ensures forall p :: p in FinderDrawn(dark, size, -4, 5) <==> p in dark && !InFinderLight(size, p)
  {
    hide InFinderRing, Passed;
    forall p: Point
      ensures FinderPassed(size, p, 5, dy) == FinderPassed(size, p, -4, dy + 1)
      ensures !FinderPassed(size, p, -4, -4) && FinderPassed(size, p, -4, 5) == InFinderLight(size, p)
    {
      RingRows(3, 3, p, dy);
      RingRows(size - 4, 3, p, dy);
      RingRows(3, size - 4, p, dy);
    }
  }

  /** The loops pass a ring row by row: none of it at the start, all of it at the end. */
  lemma RingRows(x: int, y: int, p: Point, dy: int)
    ensures InFinderRing(x, y, p) ==>
              && Passed(p.0 - x, p.1 - y, 5, dy) == Passed(p.0 - x, p.1 - y, -4, dy + 1)
              && !Passed(p.0 - x, p.1 - y, -4, -4) && Passed(p.0 - x, p.1 - y, -4, 5)
  {
  }

  /** Making a module light, in or out of bounds. */
  method ClearModule(qrcode: array<byte>, x: int, y: int)
    requires IsGrid(qrcode[..])
    modifies qrcode
    ensures IsGrid(qrcode[..]) && qrcode[0] == old(qrcode[0])
    ensures Dark(qrcode[..]) == old(Dark(qrcode[..])) - {(x, y)}
  {
    hide Dark, BufferLen;
    DarkInGrid(qrcode[..]);
    SetModuleUnbounded(qrcode, x, y, false);
  }

  method DrawFinderLight(qrcode: array<byte>)
    requires IsGrid(qrcode[..])
    modifies qrcode
    ensures IsGrid(qrcode[..]) && qrcode[0] == old(qrcode[0])
    ensures Dark(qrcode[..]) == FinderDrawn(old(Dark(qrcode[..])), qrcode[0], -4, 5)
  {
    hide Dark, BufferLen, FinderDrawn, FinderPassed, InFinderLight;
    var size: int := qrcode[0];
    ghost var before := Dark(qrcode[..]);
    FinderRows(before, size, -4);
    for dy := -4 to 5
      invariant IsGrid(qrcode[..]) && qrcode[0] == size
      invariant Dark(qrcode[..]) == FinderDrawn(before, size, -4, dy)
    {
      for dx := -4 to 5
        invariant IsGrid(qrcode[..]) && qrcode[0] == size
        invariant Dark(qrcode[..]) == FinderDrawn(before, size, dx, dy)
      {
        FinderStep(before, size, dx, dy);
        var dist := Distance(dx, dy);
        if dist == 2 || dist == 4 {
          ClearModule(qrcode, 3 + dx, 3 + dy);
          ClearModule(qrcode, size - 4 + dx, 3 + dy);
          ClearModule(qrcode, 3 + dx, size - 4 + dy);
        }
      }
      FinderRows(before, size, dy);
    }
  }

  lemma DarkInGrid(q: seq<byte>)
    requires IsGrid(q)
    ensures forall p | p in Dark(q) :: InBounds(q[0], p.0, p.1)
  {
  }

  // ---- Alignment patterns

  /** The three by three modules at the heart of an alignment pattern. */
  ghost function AlignHeart(ver: Version, i: nat, j: nat): set<Point>
    requires i < NumAlign(ver) && j < NumAlign(ver)
  {
    if IsFinderCorner(ver, i, j) then {} else Rect(AlignPos(ver, i) - 1, AlignPos(ver, j) - 1, 3, 3)
  }

  /** Draws the heart: a light ring with a dark centre. */
  ghost function HeartDrawn(dark: set<Point>, ver: Version, i: nat, j: nat): set<Point>
    requires i < NumAlign(ver) && j < NumAlign(ver)
  {
    if IsFinderCorner(ver, i, j) then dark
    else dark - AlignHeart(ver, i, j) + {(AlignPos(ver, i), AlignPos(ver, j))}
  }

  ghost function HeartColumnDrawn(dark: set<Point>, ver: Version, i: nat, m: nat): set<Point>
    requires i < NumAlign(ver) && m <= NumAlign(ver)
  {
    if m == 0 then dark else HeartDrawn(HeartColumnDrawn(dark, ver, i, m - 1), ver, i, m - 1)
  }

  ghost function HeartsDrawn(dark: set<Point>, ver: Version, n: nat): set<Point>
    requires n <= NumAlign(ver)
  {
    if n == 0 then dark else HeartColumnDrawn(HeartsDrawn(dark, ver, n - 1), ver, n - 1, NumAlign(ver))
  }

  method DrawAlignmentHearts(ver: Version, qrcode: array<byte>)
    requires IsGrid(qrcode[..]) && qrcode[0] == SizeOf(ver)
    modifies qrcode
    ensures IsGrid(qrcode[..]) && qrcode[0] == SizeOf(ver)
    ensures Dark(qrcode[..]) == HeartsDrawn(old(Dark(qrcode[..])), ver, NumAlign(ver))
  {
    hide AlignPos, AlignStep, Dark, BufferLen, HeartColumnDrawn;
    ghost var before := Dark(qrcode[..]);
    var alignPatPos := new byte[7];
    var numAlign := GetAlignmentPatternPositions(ver, alignPatPos);
    for i := 0 to numAlign
      invariant IsGrid(qrcode[..]) && qrcode[0] == SizeOf(ver)
      invariant forall k | 0 <= k < numAlign :: alignPatPos[k] == AlignPos(ver, k)
      invariant Dark(qrcode[..]) == HeartsDrawn(before, ver, i)
    {
      DrawHeartColumn(ver, i, numAlign, alignPatPos, qrcode);
    }
  }

  method DrawHeartColumn(ver: Version, i: nat, numAlign: nat, alignPatPos: array<byte>, qrcode: array<byte>)
    requires IsGrid(qrcode[..]) && qrcode[0] == SizeOf(ver)
    requires numAlign == NumAlign(ver) && i < numAlign <= alignPatPos.Length && alignPatPos != qrcode
    requires forall k | 0 <= k < numAlign :: alignPatPos[k] == AlignPos(ver, k)
    modifies qrcode
    ensures IsGrid(qrcode[..]) && qrcode[0] == SizeOf(ver)
    ensures Dark(qrcode[..]) == HeartColumnDrawn(old(Dark(qrcode[..])), ver, i, numAlign)
  {
    hide AlignPos, AlignStep, Dark, BufferLen, Rect;
    ghost var before := Dark(qrcode[..]);
    for j := 0 to numAlign
      invariant IsGrid(qrcode[..]) && qrcode[0] == SizeOf(ver)
      invariant forall k | 0 <= k < numAlign :: alignPatPos[k] == AlignPos(ver, k)
      invariant Dark(qrcode[..]) == HeartColumnDrawn(before, ver, i, j)
    {
      if (i == 0 && j == 0) || (i == 0 && j == numAlign - 1) || (i == numAlign - 1 && j == 0) {
        continue;
      }
      AlignPositions(ver, i);
      AlignPositions(ver, j);
      DrawHeart(alignPatPos[i], alignPatPos[j], qrcode);
    }
  }

  method DrawHeart(x: int, y: int, qrcode: array<byte>)
    requires IsGrid(qrcode[..]) && 1 <= x < qrcode[0] - 1 && 1 <= y < qrcode[0] - 1
    modifies qrcode
    ensures IsGrid(qrcode[..]) && qrcode[0] == old(qrcode[0])
    ensures Dark(qrcode[..]) == old(Dark(qrcode[..])) - Rect(x - 1, y - 1, 3, 3) + {(x, y)}
  {
    hide Dark, BufferLen, HeartUpTo, Painted, Rect;
    ghost var before := Dark(qrcode[..]);
    var size: int := qrcode[0];
    HeartRows(before, x, y, -1);
    for dy := -1 to 2
      invariant IsGrid(qrcode[..]) && qrcode[0] == size
      invariant Dark(qrcode[..]) == HeartUpTo(before, x, y, -1, dy)
    {
      for dx := -1 to 2
        invariant IsGrid(qrcode[..]) && qrcode[0] == size
        invariant Dark(qrcode[..]) == HeartUpTo(before, x, y, dx, dy)
      {
        HeartStep(before, x, y, dx, dy);
        SetModule(qrcode, x + dx, y + dy, dx == 0 && dy == 0);
      }
      HeartRows(before, x, y, dy);
    }
  }

  /** The heart around (x, y) drawn as far as the offsets that precede (dx, dy). */
  ghost function HeartUpTo(dark: set<Point>, x: int, y: int, dx: int, dy: int): set<Point> {
    dark - (set p | p in Rect(x - 1, y - 1, 3, 3) && Passed(p.0 - x, p.1 - y, dx, dy))
    + (if Passed(0, 0, dx, dy) then {(x, y)} else {})
  }

  lemma HeartStep(dark: set<Point>, x: int, y: int, dx: int, dy: int)
    requires -1 <= dx <= 1 && -1 <= dy <= 1
    ensures HeartUpTo(dark, x, y, dx + 1, dy) ==
            Painted(HeartUpTo(dark, x, y, dx, dy), (x + dx, y + dy), dx == 0 && dy == 0)
  {
    hide Rect;
  }

  lemma HeartRows(dark: set<Point>, x: int, y: int, dy: int)
    requires -1 <= dy <= 1
    ensures HeartUpTo(dark, x, y, 2, dy) == HeartUpTo(dark, x, y, -1, dy + 1)
    ensures HeartUpTo(dark, x, y, -1, -1) == dark
    ensures HeartUpTo(dark, x, y, -1, 2) == dark - Rect(x - 1, y - 1, 3, 3) + {(x, y)}
  {
    hide Rect;
  }

  // ---- Version information

  lemma VersionPowers()
    ensures Pow2(11) == 2048 && Pow2(12) == 4096 && Pow2(13) == 8192
  {
    assert Pow2(5) == 32;
    assert Pow2(10) == 1024;
  }

  /** The version number with its twelve check bits. */
  ghost function VersionBits(ver: Version): nat {
    VersionPowers();
    Or(ver * 4096, Division(ver, 11, 0x1F25, 12))
  }

  /** The bits are a multiple of the generator 0x1F25, and the version number can be read back from them. */
  lemma VersionBitsDetermine(ver: Version)
    ensures exists q :: VersionBits(ver) == PlainProduct(0x1F25, q)
    ensures VersionBits(ver) / 4096 == ver && VersionBits(ver) < 262144
  {
    hide Or, PlainProduct, DivisionQuotient, Division, Pow2;
    VersionPowers();
    CheckedData(ver, 11, 0x1F25);
  }

  /** The k-th module of the version information; the other copy is its mirror image. */
  function VersionPos(size: int, k: nat): Point {
    (size - 11 + k % 3, k / 3)
  }

  /** bits >> k. */
  function Shifted(bits: nat, k: nat): nat {
    Arith.DivideAtLeast(bits, Pow2(k), 0);
    bits / Pow2(k)
  }

  lemma ShiftedOnce(bits: nat, k: nat)
    ensures Shifted(bits, k) / 2 == Shifted(bits, k + 1) && Shifted(bits, 0) == bits
  {
    HalfOfPrefix(bits, k);
  }

  /** The first n bits of the version information drawn. */
  ghost function VersionDrawn(dark: set<Point>, size: int, bits: nat, n: nat): set<Point> {
    if n == 0 then dark
    else
      var d := VersionDrawn(dark, size, bits, n - 1);
      PaintedBoth(d, VersionPos(size, n - 1), Shifted(bits, n - 1) % 2 != 0)
  }

  method ComputeVersionBits(ver: Version) returns (bits: nat)
    ensures bits == VersionBits(ver)
  {
    hide Xor, Or;
    var rem: nat := ver;
    VersionPowers();
    for i := 0 to 12
      invariant rem == Division(ver, 11, 0x1F25, i) < 4096
    {
      assert rem / 2048 == if rem < 2048 then 0 else 1;
      rem := Xor(2 * rem, rem / 2048 * 0x1F25);
    }
    bits := Or(ver * 4096, rem);
  }

  method DrawVersion(ver: Version, qrcode: array<byte>)
    requires ver >= 7 && IsGrid(qrcode[..]) && qrcode[0] == SizeOf(ver)
    modifies qrcode
    ensures IsGrid(qrcode[..]) && qrcode[0] == SizeOf(ver)
    ensures Dark(qrcode[..]) == VersionDrawn(old(Dark(qrcode[..])), SizeOf(ver), VersionBits(ver), 18)
  {
    hide Dark, BufferLen, VersionBits, VersionDrawn, Shifted, PaintedBoth;
    ghost var before := Dark(qrcode[..]);
    var bits := ComputeVersionBits(ver);
    var size: int := qrcode[0];
    ShiftedOnce(VersionBits(ver), 0);
    VersionStarts(before, size, VersionBits(ver));
    for i := 0 to 6
      invariant IsGrid(qrcode[..]) && qrcode[0] == size
      invariant bits == Shifted(VersionBits(ver), 3 * i)
      invariant Dark(qrcode[..]) == VersionDrawn(before, size, VersionBits(ver), 3 * i)
    {
      for j := 0 to 3
        invariant IsGrid(qrcode[..]) && qrcode[0] == size
        invariant bits == Shifted(VersionBits(ver), 3 * i + j)
        invariant Dark(qrcode[..]) == VersionDrawn(before, size, VersionBits(ver), 3 * i + j)
      {
        var k := size - 11 + j;
        VersionStep(before, size, VersionBits(ver), i, j);
        ShiftedOnce(VersionBits(ver), 3 * i + j);
        SetBoth(qrcode, k, i, bits % 2 != 0);
        bits := bits / 2;
      }
    }
  }

  lemma VersionStarts(dark: set<Point>, size: int, bits: nat)
    ensures VersionDrawn(dark, size, bits, 0) == dark
  {
  }

  lemma VersionStep(dark: set<Point>, size: int, bits: nat, i: nat, j: nat)
    requires j < 3
    ensures VersionDrawn(dark, size, bits, 3 * i + j + 1) ==
            PaintedBoth(VersionDrawn(dark, size, bits, 3 * i + j), (size - 11 + j, i),
                        Shifted(bits, 3 * i + j) % 2 != 0)
  {
    hide Shifted, PaintedBoth;
    assert VersionPos(size, 3 * i + j) == (size - 11 + j, i);
  }

  lemma {:induction false} BitOfShifted(bits: nat, k: nat, i: nat)
    ensures Bit(bits, k + i) <==> Bit(Shifted(bits, k), i)
  {
    ShiftedOnce(bits, k);
    if k > 0 {
      ShiftedOnce(bits, k - 1);
      BitOfShifted(bits, k - 1, i + 1);
    }
  }

  lemma VersionPosInjective(size: int, j: nat, k: nat)
    requires size >= 45 && j < 18 && k < 18
    ensures VersionPos(size, j) == VersionPos(size, k) ==> j == k
    ensures VersionPos(size, j) != (VersionPos(size, k).1, VersionPos(size, k).0)
  {
  }

  /** Module k of the version information and its mirror image are dark exactly when bit k is set. */
  lemma {:induction false} VersionModuleColor(dark: set<Point>, size: int, bits: nat, n: nat, k: nat)
    requires size >= 45 && k < n <= 18
    ensures var p, d := VersionPos(size, k), VersionDrawn(dark, size, bits, n);
            (p in d <==> Bit(bits, k)) && ((p.1, p.0) in d <==> Bit(bits, k))
  {
    hide VersionPos, Shifted;
    VersionPosInjective(size, n - 1, k);
    if k < n - 1 {
      VersionModuleColor(dark, size, bits, n - 1, k);
    } else {
      BitOfShifted(bits, k, 0);
    }
  }

  /** The version information is in function modules that the format information leaves alone. */
  lemma VersionPosApart(ver: Version, k: nat)
    requires ver >= 7 && k < 18
    ensures var p := VersionPos(SizeOf(ver), k);
            && p in FunctionModules(ver) && (p.1, p.0) in FunctionModules(ver)
            && p !in FinderModules(SizeOf(ver)) && (p.1, p.0) !in FinderModules(SizeOf(ver))
  {
    hide TimingModules, AlignColumns;
    assert k / 3 < 6;
  }

  // ---- All of them

  /** drawLightFunctionModules, as a change of the grid. */
  ghost function LightDrawn(dark: set<Point>, ver: Version): set<Point> {
    var size := SizeOf(ver);
    var timing := TimingDrawn(dark, size, size - 7);
    var finders := FinderDrawn(timing, size, -4, 5);
    var hearts := HeartsDrawn(finders, ver, NumAlign(ver));
    if ver >= 7 then VersionDrawn(hearts, size, VersionBits(ver), 18) else hearts
  }

  method DrawLightFunctionModules(qrcode: array<byte>, ver: Version)
    requires IsGrid(qrcode[..]) && qrcode[0] == SizeOf(ver)
    modifies qrcode
    ensures IsGrid(qrcode[..]) && qrcode[0] == SizeOf(ver)
    ensures Dark(qrcode[..]) == LightDrawn(old(Dark(qrcode[..])), ver)
  {
    hide Dark, BufferLen, TimingDrawn, FinderDrawn, HeartsDrawn, VersionDrawn;
    DrawTimingLight(qrcode);
    DrawFinderLight(qrcode);
    DrawAlignmentHearts(ver, qrcode);
    if ver >= 7 {
      DrawVersion(ver, qrcode);
    }
  }

  // ---- Only function modules change

  ghost predicate WithinGrid(dark: set<Point>, size: int) {
    forall p | p in dark :: InBounds(size, p.0, p.1)
  }

  lemma TimingAndFindersStayInside(dark: set<Point>, ver: Version)
    requires WithinGrid(dark, SizeOf(ver))
    ensures var size := SizeOf(ver);
            var d := FinderDrawn(TimingDrawn(dark, size, size - 7), size, -4, 5);
            WithinGrid(d, size) && d - FunctionModules(ver) == dark - FunctionModules(ver)
  {
    hide Rect, AlignColumns, VersionModules;
    var size := SizeOf(ver);
    forall p: Point | InBounds(size, p.0, p.1) && (p in TimingLight(size, size - 7) || InFinderLight(size, p))
      ensures p in TimingModules(size) + FinderModules(size)
    {
    }
    FinderRows(TimingDrawn(dark, size, size - 7), size, 4);
    hide FinderPassed;
  }

  lemma {:induction false} SquareInColumn(ver: Version, i: nat, j: nat, m: nat)
    requires i < NumAlign(ver) && j < m <= NumAlign(ver)
    ensures AlignSquare(ver, i, j) <= AlignColumn(ver, i, m)
  {
    hide AlignSquare;
    if j < m - 1 {
      SquareInColumn(ver, i, j, m - 1);
    }
  }

  lemma {:induction false} ColumnInColumns(ver: Version, i: nat, n: nat)
    requires i < n <= NumAlign(ver)
    ensures AlignColumn(ver, i, NumAlign(ver)) <= AlignColumns(ver, n)
  {
    hide AlignColumn;
    if i < n - 1 {
      ColumnInColumns(ver, i, n - 1);
    }
  }

  lemma HeartStaysInside(dark: set<Point>, ver: Version, i: nat, j: nat)
    requires i < NumAlign(ver) && j < NumAlign(ver)
    ensures HeartDrawn(dark, ver, i, j) - FunctionModules(ver) == dark - FunctionModules(ver)
  {
    hide Rect, AlignPos, AlignColumn, AlignColumns, TimingModules, FinderModules, VersionModules;
    SquareInColumn(ver, i, j, NumAlign(ver));
    ColumnInColumns(ver, i, NumAlign(ver));
    assert AlignHeart(ver, i, j) <= AlignSquare(ver, i, j);
    assert !IsFinderCorner(ver, i, j) ==> (AlignPos(ver, i), AlignPos(ver, j)) in AlignSquare(ver, i, j);
  }

  lemma {:induction false} HeartColumnStaysInside(dark: set<Point>, ver: Version, i: nat, m: nat)
    requires i < NumAlign(ver) && m <= NumAlign(ver)
    ensures HeartColumnDrawn(dark, ver, i, m) - FunctionModules(ver) == dark - FunctionModules(ver)
  {
    hide HeartDrawn, FunctionModules;
    if m > 0 {
      HeartColumnStaysInside(dark, ver, i, m - 1);
      HeartStaysInside(HeartColumnDrawn(dark, ver, i, m - 1), ver, i, m - 1);
    }
  }

  lemma {:induction false} HeartsStayInside(dark: set<Point>, ver: Version, n: nat)
    requires n <= NumAlign(ver)
    ensures HeartsDrawn(dark, ver, n) - FunctionModules(ver) == dark - FunctionModules(ver)
  {
    hide HeartColumnDrawn, FunctionModules;
    if n > 0 {
      HeartsStayInside(dark, ver, n - 1);
      HeartColumnStaysInside(HeartsDrawn(dark, ver, n - 1), ver, n - 1, NumAlign(ver));
    }
  }

  lemma {:induction false} VersionStaysInside(dark: set<Point>, ver: Version, bits: nat, n: nat)
    requires ver >= 7 && n <= 18
    ensures VersionDrawn(dark, SizeOf(ver), bits, n) - FunctionModules(ver) == dark - FunctionModules(ver)
  {
    hide TimingModules, FinderModules, AlignColumns, Shifted;
    if n > 0 {
      VersionStaysInside(dark, ver, bits, n - 1);
      var p := VersionPos(SizeOf(ver), n - 1);
      assert p in VersionModules(ver) && (p.1, p.0) in VersionModules(ver) by {
        hide Rect;
        assert (n - 1) / 3 < 6;
      }
    }
  }

  /** drawLightFunctionModules changes function modules only. */
  lemma LightDrawnKeepsDataModules(dark: set<Point>, ver: Version)
    requires WithinGrid(dark, SizeOf(ver))
    ensures LightDrawn(dark, ver) - FunctionModules(ver) == dark - FunctionModules(ver)
  {
    hide TimingDrawn, FinderDrawn, HeartsDrawn, VersionDrawn, FunctionModules;
    var size := SizeOf(ver);
    TimingAndFindersStayInside(dark, ver);
    var finders := FinderDrawn(TimingDrawn(dark, size, size - 7), size, -4, 5);
    HeartsStayInside(finders, ver, NumAlign(ver));
    if ver >= 7 {
      VersionStaysInside(HeartsDrawn(finders, ver, NumAlign(ver)), ver, VersionBits(ver), 18);
    }
  }
}
