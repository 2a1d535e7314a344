/**
 The function modules leave exactly getNumRawDataModules modules for data, at every version.
 */
module QrCapacity {
  import opened QrTables
  import opened QrGrid
  import opened QrFunctionModules

  ghost function WholeGrid(size: int): set<Point> {
    Rect(0, 0, size, size)
  }

  /** The modules that carry codewords, and the remainder bits. */
  ghost function DataModules(ver: Version): set<Point> {
    WholeGrid(SizeOf(ver)) - FunctionModules(ver)
  }

  // ---- Finder and timing patterns

  lemma TimingAndFindersCount(size: int)
    requires size >= 21
    ensures |TimingModules(size) + FinderModules(size)| == 225 + 2 * (size - 17)
  {
    hide Rect;
    var a, b, c := Rect(0, 0, 9, 9), Rect(size - 8, 0, 8, 9), Rect(0, size - 8, 9, 8);
    var d, e := Rect(6, 9, 1, size - 17), Rect(9, 6, size - 17, 1);
    RectCount(0, 0, 9, 9);
    RectCount(size - 8, 0, 8, 9);
    RectCount(0, size - 8, 9, 8);
    RectCount(6, 9, 1, size - 17);
    RectCount(9, 6, size - 17, 1);
    assert TimingModules(size) + FinderModules(size) == a + b + c + d + e;
    FiveParts(a, b, c, d, e);
  }

  lemma FiveParts(a: set<Point>, b: set<Point>, c: set<Point>, d: set<Point>, e: set<Point>)
    requires a !! b !! c !! d !! e
    ensures |a + b + c + d + e| == |a| + |b| + |c| + |d| + |e|
  {
  }

  // ---- Alignment patterns

  /** What an alignment pattern covers beyond the timing patterns. */
  function SquareCount(ver: Version, i: nat, j: nat): nat {
    if IsFinderCorner(ver, i, j) then 0 else if i == 0 || j == 0 then 20 else 25
  }

  lemma SquareRest(ver: Version, i: nat, j: nat)
    requires i < NumAlign(ver) && j < NumAlign(ver)
    ensures |AlignSquare(ver, i, j) - TimingModules(SizeOf(ver))| == SquareCount(ver, i, j)
    ensures AlignSquare(ver, i, j) !! FinderModules(SizeOf(ver)) + VersionModules(ver)
    ensures AlignSquare(ver, i, j) <= WholeGrid(SizeOf(ver))
    ensures forall p | p in AlignSquare(ver, i, j) ::
              AlignPos(ver, i) - 2 <= p.0 <= AlignPos(ver, i) + 2 && AlignPos(ver, j) - 2 <= p.1 <= AlignPos(ver, j) + 2
  {
    hide Rect, AlignPos, NumAlign, AlignSquare, SquareCount, FinderModules, TimingModules, VersionModules, WholeGrid;
    SquareExtent(ver, i, j);
    CornerSquare(ver, i, j);
    if !IsFinderCorner(ver, i, j) {
      SquareSits(ver, i, j);
      SquareCounts(SizeOf(ver), AlignPos(ver, i), AlignPos(ver, j));
      SquareIsClear(SizeOf(ver), AlignPos(ver, i), AlignPos(ver, j));
    }
  }

  /** At the three corners there is a finder pattern and no square. */
  lemma CornerSquare(ver: Version, i: nat, j: nat)
    requires i < NumAlign(ver) && j < NumAlign(ver)
    ensures IsFinderCorner(ver, i, j) ==> AlignSquare(ver, i, j) == {} && SquareCount(ver, i, j) == 0
    ensures VersionModules(ver) <= Rect(SizeOf(ver) - 11, 0, 3, 6) + Rect(0, SizeOf(ver) - 11, 6, 3)
  {
    hide AlignPos, NumAlign, Rect;
  }

  lemma SquareSits(ver: Version, i: nat, j: nat)
    requires i < NumAlign(ver) && j < NumAlign(ver) && !IsFinderCorner(ver, i, j)
    ensures var x, y, size := AlignPos(ver, i), AlignPos(ver, j), SizeOf(ver);
            && (x == 6 || 18 <= x <= size - 7) && (y == 6 || 18 <= y <= size - 7)
            && (x == 6 ==> 18 <= y <= size - 19) && (y == 6 ==> 18 <= x <= size - 19)
            && AlignSquare(ver, i, j) == Rect(x - 2, y - 2, 5, 5)
            && SquareCount(ver, i, j) == if x == 6 || y == 6 then 20 else 25
  {
    hide AlignPos, NumAlign, Rect;
    AlignPositions(ver, i);
    AlignPositions(ver, j);
  }

  lemma SquareCounts(size: int, x: int, y: int)
    requires size >= 21
    requires x == 6 || 18 <= x <= size - 7
    requires y == 6 || 18 <= y <= size - 7
    requires x == 6 ==> 18 <= y <= size - 19
    requires y == 6 ==> 18 <= x <= size - 19
    ensures |Rect(x - 2, y - 2, 5, 5) - TimingModules(size)| == if x == 6 || y == 6 then 20 else 25
  {
    hide Rect;
    var rest := Rect(x - 2, y - 2, 5, 5) - TimingModules(size);
    if x == 6 {
      RectCount(4, y - 2, 2, 5);
      RectCount(7, y - 2, 2, 5);
      assert rest == Rect(4, y - 2, 2, 5) + Rect(7, y - 2, 2, 5);
      assert Rect(4, y - 2, 2, 5) !! Rect(7, y - 2, 2, 5);
    } else if y == 6 {
      RectCount(x - 2, 4, 5, 2);
      RectCount(x - 2, 7, 5, 2);
      assert rest == Rect(x - 2, 4, 5, 2) + Rect(x - 2, 7, 5, 2);
      assert Rect(x - 2, 4, 5, 2) !! Rect(x - 2, 7, 5, 2);
    } else {
      RectCount(x - 2, y - 2, 5, 5);
      assert rest == Rect(x - 2, y - 2, 5, 5);
    }
  }

  lemma SquareIsClear(size: int, x: int, y: int)
    requires size >= 21
    requires x == 6 || 18 <= x <= size - 7
    requires y == 6 || 18 <= y <= size - 7
    requires x == 6 ==> 18 <= y <= size - 19
    requires y == 6 ==> 18 <= x <= size - 19
    ensures Rect(x - 2, y - 2, 5, 5) !! FinderModules(size)
    ensures Rect(x - 2, y - 2, 5, 5) !! Rect(size - 11, 0, 3, 6) + Rect(0, size - 11, 6, 3)
    ensures Rect(x - 2, y - 2, 5, 5) <= WholeGrid(size)
  {
    hide Rect;
  }

  lemma SquareExtent(ver: Version, i: nat, j: nat)
    requires i < NumAlign(ver) && j < NumAlign(ver)
    ensures forall p | p in AlignSquare(ver, i, j) ::
              AlignPos(ver, i) - 2 <= p.0 <= AlignPos(ver, i) + 2 && AlignPos(ver, j) - 2 <= p.1 <= AlignPos(ver, j) + 2
  {
    hide Rect, AlignPos, NumAlign;
  }

  function ColumnCount(ver: Version, i: nat, m: nat): nat {
    if m == 0 then 0 else ColumnCount(ver, i, m - 1) + SquareCount(ver, i, m - 1)
  }

  function ColumnsCount(ver: Version, n: nat): nat {
    if n == 0 then 0 else ColumnsCount(ver, n - 1) + ColumnCount(ver, n - 1, NumAlign(ver))
  }

  ghost predicate ClearOfOthers(ver: Version, s: set<Point>) {
    s !! FinderModules(SizeOf(ver)) + VersionModules(ver) && s <= WholeGrid(SizeOf(ver))
  }

  lemma {:induction false} ColumnRest(ver: Version, i: nat, m: nat)
    requires i < NumAlign(ver) && m <= NumAlign(ver)
    ensures |AlignColumn(ver, i, m) - TimingModules(SizeOf(ver))| == ColumnCount(ver, i, m)
    ensures forall p | p in AlignColumn(ver, i, m) :: AlignPos(ver, i) - 2 <= p.0 <= AlignPos(ver, i) + 2
    ensures forall p | p in AlignColumn(ver, i, m) :: m > 0 && p.1 <= AlignPos(ver, m - 1) + 2
    ensures ClearOfOthers(ver, AlignColumn(ver, i, m))
  {
    hide Rect, AlignPos, NumAlign, AlignSquare, SquareCount, TimingModules, FinderModules, VersionModules, WholeGrid,
      ClearOfOthers;
    NothingIsClear(ver);
    if m > 0 {
      var timing := TimingModules(SizeOf(ver));
      var c, s := AlignColumn(ver, i, m - 1), AlignSquare(ver, i, m - 1);
      ColumnRest(ver, i, m - 1);
      SquareRest(ver, i, m - 1);
      if m > 1 {
        AlignPositionsApart(ver, m - 2, m - 1);
      }
      assert c !! s;
      UnionRest(c, s, timing);
      UnionIsClear(ver, c, s);
    }
  }

  lemma NothingIsClear(ver: Version)
    ensures ClearOfOthers(ver, {})
  {
  }

  lemma UnionIsClear(ver: Version, a: set<Point>, b: set<Point>)
    requires ClearOfOthers(ver, a) || a == {}
    requires ClearOfOthers(ver, b)
             || (b !! FinderModules(SizeOf(ver)) + VersionModules(ver) && b <= WholeGrid(SizeOf(ver)))
    ensures ClearOfOthers(ver, a + b)
  {
    hide FinderModules, VersionModules, WholeGrid;
  }

  lemma UnionRest(c: set<Point>, s: set<Point>, timing: set<Point>)
    requires c !! s
    ensures |(c + s) - timing| == |c - timing| + |s - timing|
  {
    assert (c + s) - timing == (c - timing) + (s - timing);
  }

  lemma {:induction false} ColumnsRest(ver: Version, n: nat)
    requires n <= NumAlign(ver)
    ensures |AlignColumns(ver, n) - TimingModules(SizeOf(ver))| == ColumnsCount(ver, n)
    ensures forall p | p in AlignColumns(ver, n) :: n > 0 && p.0 <= AlignPos(ver, n - 1) + 2
    ensures ClearOfOthers(ver, AlignColumns(ver, n))
  {
    hide Rect, AlignPos, NumAlign, AlignColumn, ColumnCount, TimingModules, FinderModules, VersionModules, WholeGrid,
      ClearOfOthers;
    NothingIsClear(ver);
    if n > 0 {
      var timing := TimingModules(SizeOf(ver));
      var c, s := AlignColumns(ver, n - 1), AlignColumn(ver, n - 1, NumAlign(ver));
      ColumnsRest(ver, n - 1);
      ColumnRest(ver, n - 1, NumAlign(ver));
      if n > 1 {
        AlignPositionsApart(ver, n - 2, n - 1);
      }
      assert c !! s;
      UnionRest(c, s, timing);
      UnionIsClear(ver, c, s);
    }
  }

  lemma {:induction false} ColumnCountClosed(ver: Version, i: nat, m: nat)
    requires ver >= 2 && i < NumAlign(ver) && m <= NumAlign(ver)
    ensures m >= 1 && i == 0 ==> ColumnCount(ver, i, m) == 20 * (m - 1) - (if m == NumAlign(ver) then 20 else 0)
    ensures m >= 1 && i == NumAlign(ver) - 1 ==> ColumnCount(ver, i, m) == 25 * (m - 1)
    ensures m >= 1 && 0 < i < NumAlign(ver) - 1 ==> ColumnCount(ver, i, m) == 20 + 25 * (m - 1)
  {
    if m > 1 {
      ColumnCountClosed(ver, i, m - 1);
    } else if m == 1 {
      assert ColumnCount(ver, i, 0) == 0;
    }
  }

  lemma {:induction false} ColumnsCountClosed(ver: Version, n: nat)
    requires ver >= 2 && 1 <= n < NumAlign(ver)
    ensures ColumnsCount(ver, n) == 20 * (NumAlign(ver) - 2) + (n - 1) * (25 * NumAlign(ver) - 5)
  {
    hide ColumnCount, NumAlign;
    ColumnCountClosed(ver, n - 1, NumAlign(ver));
    if n == 1 {
      assert ColumnsCount(ver, 0) == 0;
    } else {
      ColumnsCountClosed(ver, n - 1);
    }
  }

  /** The alignment patterns take what the formula of getNumRawDataModules subtracts, less the finders and timing. */
  lemma AlignmentCount(ver: Version)
    ensures var n := NumAlign(ver);
            ColumnsCount(ver, n) == if ver == 1 then 0 else (25 * n - 10) * n - 55
  {
    hide ColumnsCount, ColumnCount;
    if ver == 1 {
      NoColumns(ver);
    } else {
      var n := NumAlign(ver);
      ColumnsCountClosed(ver, n - 1);
      ColumnCountClosed(ver, n - 1, n);
      OneMoreColumn(ver, n);
      AlignmentArithmetic(n);
    }
  }

  lemma NoColumns(ver: Version)
    ensures ColumnsCount(ver, 0) == 0
  {
  }

  lemma OneMoreColumn(ver: Version, n: nat)
    requires n >= 1
    ensures ColumnsCount(ver, n) == ColumnsCount(ver, n - 1) + ColumnCount(ver, n - 1, NumAlign(ver))
  {
  }

  lemma AlignmentArithmetic(n: nat)
    ensures 20 * (n - 2) + (n - 2) * (25 * n - 5) + 25 * (n - 1) == (25 * n - 10) * n - 55
  {
  }

  // ---- The whole grid

  lemma VersionCount(ver: Version)
    ensures |VersionModules(ver)| == if ver < 7 then 0 else 36
  {
    hide Rect;
    if ver >= 7 {
      RectCount(SizeOf(ver) - 11, 0, 3, 6);
      RectCount(0, SizeOf(ver) - 11, 6, 3);
      assert Rect(SizeOf(ver) - 11, 0, 3, 6) !! Rect(0, SizeOf(ver) - 11, 6, 3);
    }
  }

  lemma VersionModulesApart(ver: Version)
    ensures VersionModules(ver) !! TimingModules(SizeOf(ver)) + FinderModules(SizeOf(ver))
    ensures VersionModules(ver) <= WholeGrid(SizeOf(ver))
  {
    hide Rect;
  }

  lemma TimingAndFindersInGrid(ver: Version)
    ensures TimingModules(SizeOf(ver)) + FinderModules(SizeOf(ver)) <= WholeGrid(SizeOf(ver))
  {
    hide Rect;
  }

  lemma FunctionModulesInGrid(ver: Version)
    ensures FunctionModules(ver) <= WholeGrid(SizeOf(ver))
  {
    hide WholeGrid, TimingModules, FinderModules, VersionModules, AlignColumns;
    VersionModulesApart(ver);
    TimingAndFindersInGrid(ver);
    ColumnsRest(ver, NumAlign(ver));
  }

  lemma UnionCount(base: set<Point>, timing: set<Point>, aligns: set<Point>, version: set<Point>)
    requires timing <= base && aligns !! (base - timing) && version !! base && version !! aligns
    ensures |base + aligns + version| == |base| + |aligns - timing| + |version|
  {
    assert base + aligns == base + (aligns - timing);
  }

  /** getNumRawDataModules counts the modules that are not function modules. */
  lemma DataModulesCount(ver: Version)
    ensures |DataModules(ver)| == NumRawDataModules(ver)
  {
    hide Rect, TimingModules, FinderModules, VersionModules, AlignColumns, NumAlign;
    var size := SizeOf(ver);
    var base, version := TimingModules(size) + FinderModules(size), VersionModules(ver);
    var aligns := AlignColumns(ver, NumAlign(ver));
    ColumnsRest(ver, NumAlign(ver));
    VersionModulesApart(ver);
    UnionCount(base, TimingModules(size), aligns, version);
    FunctionModulesInGrid(ver);
    RectCount(0, 0, size, size);
    TotalsAgree(ver);
  }

  lemma TotalsAgree(ver: Version)
    ensures SizeOf(ver) * SizeOf(ver) - |TimingModules(SizeOf(ver)) + FinderModules(SizeOf(ver))|
            - ColumnsCount(ver, NumAlign(ver)) - |VersionModules(ver)| == NumRawDataModules(ver)
  {
    hide TimingModules, FinderModules, VersionModules, ColumnsCount;
    TimingAndFindersCount(SizeOf(ver));
    VersionCount(ver);
    AlignmentCount(ver);
    GridArithmetic(ver);
  }

  lemma GridArithmetic(ver: Version)
    ensures SizeOf(ver) * SizeOf(ver) == (16 * ver + 136) * ver + 289
  {
  }
}
