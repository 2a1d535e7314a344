/**
 The function modules of a QR Code: finder, timing and alignment patterns, format and version
 information. Sections 6.3, 7.9 and 7.10 of ISO/IEC 18004:2015.
 */
module QrFunctionModules {
  import opened Bits
  import Arith
  import opened QrTables
  import opened QrGrid

  // ---- Where the alignment patterns are

  function NumAlign(ver: Version): nat {
    if ver == 1 then 0 else ver / 7 + 2
  }

  function AlignStep(ver: Version): nat
    requires ver >= 2
  {
    var n := ver / 7 + 2;
    (ver * 8 + n * 3 + 5) / (n * 4 - 4) * 2
  }

  /** The i-th coordinate of the alignment pattern centres, ascending. */
  function AlignPos(ver: Version, i: nat): int
    requires i < NumAlign(ver)
  {
    if i == 0 then 6 else SizeOf(ver) - 7 - (NumAlign(ver) - 1 - i) * AlignStep(ver)
  }

  lemma AlignStepIsWide(ver: Version)
    requires ver >= 2
    ensures AlignStep(ver) >= 12
    ensures 18 <= SizeOf(ver) - 7 - (NumAlign(ver) - 2) * AlignStep(ver)
  {
    hide AlignStep, NumAlign;
    match ver / 7 + 2
    case 2 => StepIsWide(ver, 2, (ver * 8 + 11) / 4 * 2);
    case 3 => StepIsWide(ver, 3, (ver * 8 + 14) / 8 * 2);
    case 4 => StepIsWide(ver, 4, (ver * 8 + 17) / 12 * 2);
    case 5 => StepIsWide(ver, 5, (ver * 8 + 20) / 16 * 2);
    case 6 => StepIsWide(ver, 6, (ver * 8 + 23) / 20 * 2);
    case 7 => StepIsWide(ver, 7, (ver * 8 + 26) / 24 * 2);
  }

  lemma StepIsWide(ver: Version, n: nat, step: nat)
    requires ver >= 2 && n == ver / 7 + 2 && step == (ver * 8 + n * 3 + 5) / (n * 4 - 4) * 2
    requires step >= 12 && 18 <= SizeOf(ver) - 7 - (n - 2) * step
    ensures AlignStep(ver) >= 12
    ensures 18 <= SizeOf(ver) - 7 - (NumAlign(ver) - 2) * AlignStep(ver)
  {
    hide AlignStep, NumAlign;
    AlignStepFor(ver, n);
  }

  lemma AlignStepFor(ver: Version, n: nat)
    requires ver >= 2 && n == ver / 7 + 2
    ensures NumAlign(ver) == n && AlignStep(ver) == (ver * 8 + n * 3 + 5) / (n * 4 - 4) * 2
  {
  }

  /** The centres after the first start well past the finder patterns, keep a distance, and end at the last one. */
  lemma AlignPositions(ver: Version, i: nat)
    requires i < NumAlign(ver)
    ensures i == 0 ==> AlignPos(ver, i) == 6
    ensures i >= 1 ==> 18 <= AlignPos(ver, i) <= SizeOf(ver) - 7
    ensures i == NumAlign(ver) - 1 ==> AlignPos(ver, i) == SizeOf(ver) - 7
    ensures 1 <= i < NumAlign(ver) - 1 ==> AlignPos(ver, i) <= SizeOf(ver) - 19
  {
    if i >= 1 {
      var n, step := NumAlign(ver), AlignStep(ver);
      AlignStepIsWide(ver);
      Arith.Commute(n - 1 - i, step);
      Arith.Commute(n - 2, step);
      Arith.MulMonotone(step, n - 1 - i, n - 2);
      Arith.MulMonotone(step, 0, n - 1 - i);
      if i < n - 1 {
        Arith.MulMonotone(step, 1, n - 1 - i);
      }
    }
  }

  lemma AlignPositionsApart(ver: Version, i: nat, j: nat)
    requires i < j < NumAlign(ver)
    ensures AlignPos(ver, i) + 12 <= AlignPos(ver, j)
  {
    AlignPositions(ver, i);
    AlignPositions(ver, j);
    if i >= 1 {
      var n, step := NumAlign(ver), AlignStep(ver);
      AlignStepIsWide(ver);
      Arith.Commute(n - 1 - i, step);
      Arith.Commute(n - 1 - j, step);
      Arith.MulMonotone(step, n - 1 - j + 1, n - 1 - i);
      Arith.MulSuccessor(step, n - 1 - j);
    }
  }

  /** getAlignmentPatternPositions. */
  method GetAlignmentPatternPositions(ver: Version, result: array<byte>) returns (numAlign: nat)
    requires result.Length == 7
    modifies result
    ensures numAlign == NumAlign(ver) <= 7
    ensures forall k | 0 <= k < numAlign :: result[k] == AlignPos(ver, k)
  {
    if ver == 1 {
      return 0;
    }
    numAlign := ver / 7 + 2;
    var step := (ver * 8 + numAlign * 3 + 5) / (numAlign * 4 - 4) * 2;
    var i, pos := numAlign - 1, ver * 4 + 10;
    while i >= 1
      invariant 0 <= i < numAlign
      invariant pos == SizeOf(ver) - 7 - (numAlign - 1 - i) * step
      invariant forall k | i < k < numAlign :: result[k] == AlignPos(ver, k)
    {
      AlignPositions(ver, i);
      result[i] := pos;
      assert (numAlign - 1 - (i - 1)) * step == (numAlign - 1 - i) * step + step by {
        Arith.Commute(numAlign - 1 - i, step);
        Arith.Commute(numAlign - i, step);
        Arith.MulSuccessor(step, numAlign - 1 - i);
      }
      i, pos := i - 1, pos - step;
    }
    result[0] := 6;
  }

  // ---- The function modules

  predicate IsFinderCorner(ver: Version, i: nat, j: nat) {
    (i == 0 && j == 0) || (i == 0 && j == NumAlign(ver) - 1) || (i == NumAlign(ver) - 1 && j == 0)
  }

  /** The alignment pattern in column i and row j of the centres; there is none on a finder pattern. */
  ghost function AlignSquare(ver: Version, i: nat, j: nat): set<Point>
    requires i < NumAlign(ver) && j < NumAlign(ver)
  {
    if IsFinderCorner(ver, i, j) then {} else Rect(AlignPos(ver, i) - 2, AlignPos(ver, j) - 2, 5, 5)
  }

  ghost function AlignColumn(ver: Version, i: nat, m: nat): set<Point>
    requires i < NumAlign(ver) && m <= NumAlign(ver)
  {
    if m == 0 then {} else AlignColumn(ver, i, m - 1) + AlignSquare(ver, i, m - 1)
  }

  ghost function AlignColumns(ver: Version, n: nat): set<Point>
    requires n <= NumAlign(ver)
  {
    if n == 0 then {} else AlignColumns(ver, n - 1) + AlignColumn(ver, n - 1, NumAlign(ver))
  }

  ghost function TimingModules(size: int): set<Point> {
    Rect(6, 0, 1, size) + Rect(0, 6, size, 1)
  }

  /** The finder patterns with their separators and the format information beside them. */
  ghost function FinderModules(size: int): set<Point> {
    Rect(0, 0, 9, 9) + Rect(size - 8, 0, 8, 9) + Rect(0, size - 8, 9, 8)
  }

  ghost function VersionModules(ver: Version): set<Point> {
    if ver < 7 then {} else Rect(SizeOf(ver) - 11, 0, 3, 6) + Rect(0, SizeOf(ver) - 11, 6, 3)
  }

  ghost function FunctionModules(ver: Version): set<Point> {
    TimingModules(SizeOf(ver)) + FinderModules(SizeOf(ver)) + AlignColumns(ver, NumAlign(ver)) + VersionModules(ver)
  }

  /** initializeFunctionModules: an empty grid with every function module dark. */
  method InitializeFunctionModules(ver: Version, qrcode: array<byte>)
    requires qrcode.Length >= BufferLen(SizeOf(ver))
    modifies qrcode
    ensures IsGrid(qrcode[..]) && qrcode[0] == SizeOf(ver)
    ensures Dark(qrcode[..]) == FunctionModules(ver)
  {
    hide Rect, IsGrid, Dark, AlignColumns;
    var size := ver * 4 + 17;
    ClearGrid(size, qrcode);
    FillRectangle(6, 0, 1, size, qrcode);
    FillRectangle(0, 6, size, 1, qrcode);
    FillRectangle(0, 0, 9, 9, qrcode);
    FillRectangle(size - 8, 0, 8, 9, qrcode);
    FillRectangle(0, size - 8, 9, 8, qrcode);
    assert Dark(qrcode[..]) == TimingModules(size) + FinderModules(size);
    FillAlignmentPatterns(ver, qrcode);
    if ver >= 7 {
      FillRectangle(size - 11, 0, 3, 6, qrcode);
      FillRectangle(0, size - 11, 6, 3, qrcode);
    }
  }

  /** The memset and the size byte: a grid without dark modules. */
  method ClearGrid(size: int, qrcode: array<byte>)
    requires 21 <= size <= 177 && qrcode.Length >= BufferLen(size)
    modifies qrcode
    ensures IsGrid(qrcode[..]) && qrcode[0] == size && Dark(qrcode[..]) == {}
  {
    forall k | 0 <= k < BufferLen(size) {
      qrcode[k] := 0;
    }
    qrcode[0] := size;
    forall x, y | InBounds(size, x, y)
      ensures !ModuleBit(qrcode[..], x, y)
    {
      IndexInBuffer(size, x, y);
      ZeroBit(Index(size, x, y) % 8);
    }
  }

  method FillAlignmentPatterns(ver: Version, qrcode: array<byte>)
    requires IsGrid(qrcode[..]) && qrcode[0] == SizeOf(ver)
    modifies qrcode
    ensures IsGrid(qrcode[..]) && qrcode[0] == SizeOf(ver)
    ensures Dark(qrcode[..]) == old(Dark(qrcode[..])) + AlignColumns(ver, NumAlign(ver))
  {
    hide AlignPos, AlignStep, Rect, AlignColumn, Dark;
    ghost var before := Dark(qrcode[..]);
    var alignPatPos := new byte[7];
    var numAlign := GetAlignmentPatternPositions(ver, alignPatPos);
    for i := 0 to numAlign
      invariant IsGrid(qrcode[..]) && qrcode[0] == SizeOf(ver)
      invariant forall k | 0 <= k < numAlign :: alignPatPos[k] == AlignPos(ver, k)
      invariant Dark(qrcode[..]) == before + AlignColumns(ver, i)
    {
      FillAlignmentColumn(ver, i, numAlign, alignPatPos, qrcode);
    }
  }

  method FillAlignmentColumn(ver: Version, i: nat, numAlign: nat, alignPatPos: array<byte>, qrcode: array<byte>)
    requires IsGrid(qrcode[..]) && qrcode[0] == SizeOf(ver)
    requires numAlign == NumAlign(ver) && i < numAlign <= alignPatPos.Length && alignPatPos != qrcode
    requires forall k | 0 <= k < numAlign :: alignPatPos[k] == AlignPos(ver, k)
    modifies qrcode
    ensures IsGrid(qrcode[..]) && qrcode[0] == SizeOf(ver)
    ensures Dark(qrcode[..]) == old(Dark(qrcode[..])) + AlignColumn(ver, i, numAlign)
  {
    hide AlignPos, AlignStep, Rect, Dark;
    for j := 0 to numAlign
      invariant IsGrid(qrcode[..]) && qrcode[0] == SizeOf(ver)
      invariant forall k | 0 <= k < numAlign :: alignPatPos[k] == AlignPos(ver, k)
      invariant Dark(qrcode[..]) == old(Dark(qrcode[..])) + AlignColumn(ver, i, j)
    {
      if !((i == 0 && j == 0) || (i == 0 && j == numAlign - 1) || (i == numAlign - 1 && j == 0)) {
        AlignPositions(ver, i);
        AlignPositions(ver, j);
        FillRectangle(alignPatPos[i] - 2, alignPatPos[j] - 2, 5, 5, qrcode);
      }
    }
  }
}
