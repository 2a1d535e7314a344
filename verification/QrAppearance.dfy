/**
 What a finished QR Code looks like where it carries no codewords, in pictures: '#' is dark. Section 6.3 of
 ISO/IEC 18004:2015.
 */
module QrAppearance {
  import opened Bits
  import opened QrTables
  import opened QrGrid
  import opened QrFunctionModules
  import opened QrPatterns
  import opened QrPlacement
  import opened QrMask
  import opened QrFormat
  import opened QrSegments
  import opened QrStream
  import opened QrReference
  import opened QrSymbol
  import Arith

  /** A finder pattern with its separator, from the corner of the symbol. */
  function FinderRow(y: nat): (row: string)
    ensures |row| == 8
  {
    match y
    case 0 => "#######."
    case 1 => "#.....#."
    case 2 => "#.###.#."
    case 3 => "#.###.#."
    case 4 => "#.###.#."
    case 5 => "#.....#."
    case 6 => "#######."
    case _ => "........"
  }

  function AlignmentRow(y: nat): (row: string)
    ensures |row| == 5
  {
    match y
    case 0 => "#####"
    case 1 => "#...#"
    case 2 => "#.#.#"
    case 3 => "#...#"
    case _ => "#####"
  }

  // ---- Where nothing is drawn

  /** The version information is in two blocks. */
  predicate InVersionBlock(size: int, p: Point) {
    (size - 11 <= p.0 <= size - 9 && 0 <= p.1 <= 5) || (size - 11 <= p.1 <= size - 9 && 0 <= p.0 <= 5)
  }

  lemma {:induction false} VersionElsewhere(dark: set<Point>, size: int, bits: nat, n: nat, p: Point)
    requires n <= 18 && !InVersionBlock(size, p)
    ensures p in VersionDrawn(dark, size, bits, n) <==> p in dark
  {
    hide Shifted;
    if n > 0 {
      VersionElsewhere(dark, size, bits, n - 1, p);
      assert (n - 1) / 3 <= 5;
    }
  }

  predicate InHeart(ver: Version, i: nat, j: nat, p: Point)
    requires i < NumAlign(ver) && j < NumAlign(ver)
  {
    !IsFinderCorner(ver, i, j) && Near(p, AlignPos(ver, i), AlignPos(ver, j), 1)
  }

  lemma HeartAt(dark: set<Point>, ver: Version, i: nat, j: nat, p: Point)
    requires i < NumAlign(ver) && j < NumAlign(ver)
    ensures p in HeartDrawn(dark, ver, i, j) <==>
            if InHeart(ver, i, j, p) then p == (AlignPos(ver, i), AlignPos(ver, j)) else p in dark
  {
    hide AlignPos, NumAlign, IsFinderCorner, Rect;
  }

  lemma OneHeart(ver: Version, i: nat, j: nat, k: nat, l: nat, p: Point)
    requires i < NumAlign(ver) && j < NumAlign(ver) && k < NumAlign(ver) && l < NumAlign(ver)
    requires InHeart(ver, i, j, p) && InHeart(ver, k, l, p)
    ensures i == k && j == l
  {
    hide AlignPos, NumAlign, IsFinderCorner;
    if i < k {
      AlignPositionsApart(ver, i, k);
    } else if k < i {
      AlignPositionsApart(ver, k, i);
    }
    if j < l {
      AlignPositionsApart(ver, j, l);
    } else if l < j {
      AlignPositionsApart(ver, l, j);
    }
  }

  lemma {:induction false} HeartColumnAt(dark: set<Point>, ver: Version, i: nat, m: nat, p: Point)
    requires i < NumAlign(ver) && m <= NumAlign(ver)
    ensures (forall j | 0 <= j < m :: !InHeart(ver, i, j, p)) ==>
              (p in HeartColumnDrawn(dark, ver, i, m) <==> p in dark)
    ensures forall j | 0 <= j < m && InHeart(ver, i, j, p) ::
              p in HeartColumnDrawn(dark, ver, i, m) <==> p == (AlignPos(ver, i), AlignPos(ver, j))
  {
    hide AlignPos, NumAlign, InHeart, HeartDrawn;
    if m > 0 {
      HeartColumnAt(dark, ver, i, m - 1, p);
      HeartAt(HeartColumnDrawn(dark, ver, i, m - 1), ver, i, m - 1, p);
      forall j | 0 <= j < m - 1 && InHeart(ver, i, j, p)
        ensures !InHeart(ver, i, m - 1, p)
      {
        if InHeart(ver, i, m - 1, p) {
          OneHeart(ver, i, j, i, m - 1, p);
        }
      }
    }
  }

  lemma {:induction false} HeartsAt(dark: set<Point>, ver: Version, n: nat, p: Point)
    requires n <= NumAlign(ver)
    ensures (forall i, j | 0 <= i < n && 0 <= j < NumAlign(ver) :: !InHeart(ver, i, j, p)) ==>
              (p in HeartsDrawn(dark, ver, n) <==> p in dark)
    ensures forall i, j | 0 <= i < n && 0 <= j < NumAlign(ver) && InHeart(ver, i, j, p) ::
              p in HeartsDrawn(dark, ver, n) <==> p == (AlignPos(ver, i), AlignPos(ver, j))
  {
    hide AlignPos, NumAlign, InHeart, HeartColumnDrawn;
    if n > 0 {
      var before := HeartsDrawn(dark, ver, n - 1);
      HeartsAt(dark, ver, n - 1, p);
      HeartColumnAt(before, ver, n - 1, NumAlign(ver), p);
      var m := n - 1;
      forall i, j | 0 <= i < m && 0 <= j < NumAlign(ver) && InHeart(ver, i, j, p)
        ensures forall k | 0 <= k < NumAlign(ver) :: !InHeart(ver, m, k, p)
      {
        forall k | 0 <= k < NumAlign(ver)
          ensures !InHeart(ver, m, k, p)
        {
          if InHeart(ver, m, k, p) {
            OneHeart(ver, i, j, m, k, p);
          }
        }
      }
    }
  }

  // ---- What is drawn on dark function modules

  /** A function module outside the hearts and version blocks is light where timing or finder patterns are. */
  lemma LightOutsideHearts(dark: set<Point>, ver: Version, p: Point)
    requires p in dark && !InVersionBlock(SizeOf(ver), p)
    requires forall i, j | 0 <= i < NumAlign(ver) && 0 <= j < NumAlign(ver) :: !InHeart(ver, i, j, p)
    ensures var size := SizeOf(ver);
            p in LightDrawn(dark, ver) <==> p !in TimingLight(size, size - 7) && !InFinderLight(size, p)
  {
    hide NumAlign, InHeart, InFinderLight, FinderPassed, HeartsDrawn, VersionDrawn, VersionBits, TimingLight;
    var size := SizeOf(ver);
    var finders := FinderDrawn(TimingDrawn(dark, size, size - 7), size, -4, 5);
    FinderRows(TimingDrawn(dark, size, size - 7), size, -4);
    HeartsAt(finders, ver, NumAlign(ver), p);
    VersionElsewhere(HeartsDrawn(finders, ver, NumAlign(ver)), size, if ver >= 7 then VersionBits(ver) else 0, 18, p);
  }

  lemma LightInHeart(dark: set<Point>, ver: Version, i: nat, j: nat, p: Point)
    requires i < NumAlign(ver) && j < NumAlign(ver) && InHeart(ver, i, j, p) && !InVersionBlock(SizeOf(ver), p)
    ensures p in LightDrawn(dark, ver) <==> p == (AlignPos(ver, i), AlignPos(ver, j))
  {
    hide NumAlign, AlignPos, InHeart, FinderDrawn, TimingDrawn, HeartsDrawn, VersionDrawn, VersionBits;
    var size := SizeOf(ver);
    var finders := FinderDrawn(TimingDrawn(dark, size, size - 7), size, -4, 5);
    HeartsAt(finders, ver, NumAlign(ver), p);
    VersionElsewhere(HeartsDrawn(finders, ver, NumAlign(ver)), size, if ver >= 7 then VersionBits(ver) else 0, 18, p);
  }

  predicate InFormat(size: int, p: Point) {
    (p.0 == 8 && (p.1 <= 8 || p.1 >= size - 8) && p.1 != 6) || (p.1 == 8 && (p.0 <= 8 || p.0 >= size - 8) && p.0 != 6)
  }

  lemma FormatModulesAre(size: int)
    requires size >= 21
    ensures forall p | p in FormatModules(size, 31) :: InFormat(size, p)
  {
    forall t | 0 <= t < 31
      ensures InFormat(size, FormatPos(size, t))
    {
    }
  }

  /** A function module that is not one of the format modules has the colour that it had before masking, which is what
      is drawn on a dark module. */
  lemma DrawnModule(segs: seq<Segment>, ver: Version, ecl: Ecc, mask: Mask, p: Point) returns (dark: set<Point>)
    requires ValidSegments(segs) && Fits(segs, ver, ecl) && p in FunctionModules(ver) && !InFormat(SizeOf(ver), p)
    ensures p in dark && (p in Symbol(segs, ver, ecl, mask) <==> p in LightDrawn(dark, ver))
  {
    hide FunctionModules, FormatBits, FormatColor, LightDrawn, Placed, DataOrder, Codewords, InFormat, FormatPos;
    FormatModulesAre(SizeOf(ver));
    var codewords := Codewords(segs, ver, ecl);
    CodewordsFit(ver);
    dark := FunctionModules(ver) + Placed(DataOrder(ver), BufferBits(codewords, 8 * |codewords|));
    assert FormatDark(SizeOf(ver), FormatBits(ecl, mask), 31) <= FormatModules(SizeOf(ver), 31);
  }

  // ---- Finder patterns

  lemma RingPicture(x: int, y: int)
    requires 0 <= x < 8 && 0 <= y < 8
    ensures Distance(x - 3, y - 3) in {2, 4} <==> FinderRow(y)[x] == '.'
  {
    match y case 0 => case 1 => case 2 => case 3 => case 4 => case 5 => case 6 => case _ =>
  }

  predicate InFinderCorner(size: int, p: Point) {
    0 <= p.0 < size && 0 <= p.1 < size
      && ((p.0 < 8 && p.1 < 8) || (p.0 >= size - 8 && p.1 < 8) || (p.0 < 8 && p.1 >= size - 8))
  }

  lemma CornerIsClear(ver: Version, p: Point)
    requires InFinderCorner(SizeOf(ver), p)
    ensures !InVersionBlock(SizeOf(ver), p) && !InFormat(SizeOf(ver), p)
    ensures forall i, j | 0 <= i < NumAlign(ver) && 0 <= j < NumAlign(ver) :: !InHeart(ver, i, j, p)
  {
    hide AlignPos, NumAlign;
    forall i, j | 0 <= i < NumAlign(ver) && 0 <= j < NumAlign(ver)
      ensures !InHeart(ver, i, j, p)
    {
      AlignPositions(ver, i);
      AlignPositions(ver, j);
    }
  }

  lemma CornerIsFunction(ver: Version, p: Point)
    requires InFinderCorner(SizeOf(ver), p)
    ensures p in FunctionModules(ver)
  {
    hide TimingModules, AlignColumns, VersionModules;
  }

  lemma FinderLightAt(size: int, x: nat, y: nat)
    requires size >= 21 && size % 2 == 1 && x < 8 && y < 8
    ensures InFinderLight(size, (x, y)) <==> Distance(x - 3, y - 3) in {2, 4}
    ensures InFinderLight(size, (size - 1 - x, y)) <==> Distance(x - 3, y - 3) in {2, 4}
    ensures InFinderLight(size, (x, size - 1 - y)) <==> Distance(x - 3, y - 3) in {2, 4}
    ensures (x, y) in TimingLight(size, size - 7) ==> Distance(x - 3, y - 3) == 4
    ensures (size - 1 - x, y) in TimingLight(size, size - 7) ==> Distance(x - 3, y - 3) == 4
    ensures (x, size - 1 - y) in TimingLight(size, size - 7) ==> Distance(x - 3, y - 3) == 4
  {
  }

  /** In each of its three corners a finished QR Code shows the finder pattern and its light separator. */
  lemma FindersLookRight(segs: seq<Segment>, ver: Version, ecl: Ecc, mask: Mask, x: nat, y: nat)
    requires ValidSegments(segs) && Fits(segs, ver, ecl) && x < 8 && y < 8
    ensures var symbol, size := Symbol(segs, ver, ecl, mask), SizeOf(ver);
            && ((x, y) in symbol <==> FinderRow(y)[x] == '#')
            && ((size - 1 - x, y) in symbol <==> FinderRow(y)[x] == '#')
            && ((x, size - 1 - y) in symbol <==> FinderRow(y)[x] == '#')
  {
    hide Symbol, InFinderLight, TimingLight, Distance, LightDrawn;
    var size := SizeOf(ver);
    FinderLightAt(size, x, y);
    RingPicture(x, y);
    TwoColors(x, y);
    forall p: Point | p in {(x, y), (size - 1 - x, y), (x, size - 1 - y)}
      ensures p in Symbol(segs, ver, ecl, mask) <==> p !in TimingLight(size, size - 7) && !InFinderLight(size, p)
    {
      CornerColor(segs, ver, ecl, mask, p);
    }
  }

  lemma TwoColors(x: nat, y: nat)
    requires x < 8 && y < 8
    ensures FinderRow(y)[x] == '#' || FinderRow(y)[x] == '.'
  {
    match y case 0 => case 1 => case 2 => case 3 => case 4 => case 5 => case 6 => case _ =>
  }

  lemma CornerColor(segs: seq<Segment>, ver: Version, ecl: Ecc, mask: Mask, p: Point)
    requires ValidSegments(segs) && Fits(segs, ver, ecl) && InFinderCorner(SizeOf(ver), p)
    ensures var size := SizeOf(ver);
            p in Symbol(segs, ver, ecl, mask) <==> p !in TimingLight(size, size - 7) && !InFinderLight(size, p)
  {
    hide Symbol, InFinderLight, TimingLight, LightDrawn, FunctionModules, InHeart, InFormat, Fits;
    CornerIsClear(ver, p);
    CornerIsFunction(ver, p);
    var dark := DrawnModule(segs, ver, ecl, mask, p);
    LightOutsideHearts(dark, ver, p);
  }

  // ---- Timing patterns

  lemma CentresAreEven(ver: Version, i: nat)
    requires i < NumAlign(ver)
    ensures AlignPos(ver, i) % 2 == 0
  {
    if i > 0 {
      var n, s := NumAlign(ver) - 1 - i, AlignStep(ver) / 2;
      assert AlignStep(ver) == 2 * s;
      Arith.Reassociate(n, 2, s);
      Arith.Commute(n, 2);
      Arith.Reassociate(2, n, s);
      assert AlignPos(ver, i) == 2 * (2 * ver + 5 - n * s);
    }
  }

  lemma TimingIsFunction(ver: Version, p: Point)
    requires InBounds(SizeOf(ver), p.0, p.1) && (p.0 == 6 || p.1 == 6)
    ensures p in FunctionModules(ver)
  {
    hide FinderModules, AlignColumns, VersionModules;
  }

  lemma TimingColor(segs: seq<Segment>, ver: Version, ecl: Ecc, mask: Mask, p: Point, i: int)
    requires ValidSegments(segs) && Fits(segs, ver, ecl) && 8 <= i <= SizeOf(ver) - 9 && (p == (6, i) || p == (i, 6))
    ensures p in Symbol(segs, ver, ecl, mask) <==> i % 2 == 0
  {
    hide Symbol, LightDrawn, FunctionModules, Fits, AlignPos, NumAlign;
    var size := SizeOf(ver);
    TimingIsFunction(ver, p);
    TimingIsClear(size, p, i);
    var dark := DrawnModule(segs, ver, ecl, mask, p);
    if a, b :| 0 <= a < NumAlign(ver) && 0 <= b < NumAlign(ver) && InHeart(ver, a, b, p) {
      LightInHeart(dark, ver, a, b, p);
      AlignPositions(ver, a);
      AlignPositions(ver, b);
      CentresAreEven(ver, a);
      CentresAreEven(ver, b);
    } else {
      hide InHeart;
      LightOutsideHearts(dark, ver, p);
    }
  }

  lemma TimingIsClear(size: int, p: Point, i: int)
    requires size >= 21 && 8 <= i <= size - 9 && (p == (6, i) || p == (i, 6))
    ensures !InVersionBlock(size, p) && !InFormat(size, p) && !InFinderLight(size, p)
    ensures p in TimingLight(size, size - 7) <==> i % 2 == 1
  {
  }

  /** Between the finder patterns the timing patterns alternate, beginning and ending dark, through alignment patterns
      as well. */
  lemma TimingLooksRight(segs: seq<Segment>, ver: Version, ecl: Ecc, mask: Mask, i: int)
    requires ValidSegments(segs) && Fits(segs, ver, ecl) && 8 <= i <= SizeOf(ver) - 9
    ensures (6, i) in Symbol(segs, ver, ecl, mask) <==> i % 2 == 0
    ensures (i, 6) in Symbol(segs, ver, ecl, mask) <==> i % 2 == 0
  {
    hide Symbol, Fits;
    TimingColor(segs, ver, ecl, mask, (6, i), i);
    TimingColor(segs, ver, ecl, mask, (i, 6), i);
  }

  // ---- Alignment patterns

  lemma SquareIsFunction(ver: Version, i: nat, j: nat, p: Point)
    requires i < NumAlign(ver) && j < NumAlign(ver) && !IsFinderCorner(ver, i, j)
    requires Near(p, AlignPos(ver, i), AlignPos(ver, j), 2)
    ensures p in FunctionModules(ver)
  {
    hide Rect, AlignPos, NumAlign, TimingModules, FinderModules, VersionModules, AlignColumns;
    SquareInColumn(ver, i, j, NumAlign(ver));
    ColumnInColumns(ver, i, NumAlign(ver));
  }

  lemma AlignmentIsClear(ver: Version, i: nat, j: nat, p: Point)
    requires i < NumAlign(ver) && j < NumAlign(ver) && !IsFinderCorner(ver, i, j)
    requires Near(p, AlignPos(ver, i), AlignPos(ver, j), 2)
    ensures var size := SizeOf(ver);
            && !InVersionBlock(size, p) && !InFormat(size, p) && !InFinderLight(size, p)
            && (p in TimingLight(size, size - 7) ==> Near(p, AlignPos(ver, i), AlignPos(ver, j), 1))
  {
    hide AlignPos, NumAlign, TimingLight, InFinderLight;
    AlignPositions(ver, i);
    AlignPositions(ver, j);
    CentresAreEven(ver, i);
    CentresAreEven(ver, j);
    EnoughCentres(ver);
    FarFromFinders(SizeOf(ver), p);
  }

  lemma FarFromFinders(size: int, p: Point)
    requires 4 <= p.0 <= size - 5 && 4 <= p.1 <= size - 5
    requires p.0 >= 16 || p.1 >= 16
    requires (p.0 <= size - 17 || p.1 >= 16) && (p.1 <= size - 17 || p.0 >= 16)
    ensures !InFinderLight(size, p)
  {
  }

  lemma RingOfSquare(ver: Version, i: nat, j: nat, p: Point)
    requires i < NumAlign(ver) && j < NumAlign(ver) && !IsFinderCorner(ver, i, j)
    requires Near(p, AlignPos(ver, i), AlignPos(ver, j), 2) && !Near(p, AlignPos(ver, i), AlignPos(ver, j), 1)
    ensures forall k, l | 0 <= k < NumAlign(ver) && 0 <= l < NumAlign(ver) :: !InHeart(ver, k, l, p)
  {
    hide AlignPos, NumAlign, IsFinderCorner;
    forall k, l | 0 <= k < NumAlign(ver) && 0 <= l < NumAlign(ver)
      ensures !InHeart(ver, k, l, p)
    {
      if i < k {
        AlignPositionsApart(ver, i, k);
      } else if k < i {
        AlignPositionsApart(ver, k, i);
      }
      if j < l {
        AlignPositionsApart(ver, j, l);
      } else if l < j {
        AlignPositionsApart(ver, l, j);
      }
    }
  }

  lemma AlignmentPicture(dx: int, dy: int)
    requires -2 <= dx <= 2 && -2 <= dy <= 2
    ensures AlignmentRow(dy + 2)[dx + 2] == '#' <==> (dx == 0 && dy == 0) || !(-1 <= dx <= 1 && -1 <= dy <= 1)
  {
    match dy + 2 case 0 => case 1 => case 2 => case 3 => case _ =>
  }

  /** Around every centre of table E.1 a finished QR Code shows the alignment pattern. */
  lemma AlignmentLooksRight(segs: seq<Segment>, ver: Version, ecl: Ecc, mask: Mask, i: nat, j: nat, dx: int, dy: int)
    requires ValidSegments(segs) && Fits(segs, ver, ecl) && i < |Centres(ver)| && j < |Centres(ver)|
    requires var u, v, last := Centres(ver)[i], Centres(ver)[j], SizeOf(ver) - 7;
             !(u == 6 && v == 6) && !(u == 6 && v == last) && !(u == last && v == 6)
    requires -2 <= dx <= 2 && -2 <= dy <= 2
    ensures (Centres(ver)[i] + dx, Centres(ver)[j] + dy) in Symbol(segs, ver, ecl, mask) <==>
              AlignmentRow(dy + 2)[dx + 2] == '#'
  {
    hide Symbol, Fits, LightDrawn, FunctionModules, AlignPos, NumAlign, Centres, InFinderLight, InFormat, TimingLight,
      AlignmentRow;
    CentresAre(ver);
    CornersAre(ver, i, j);
    var p := (Centres(ver)[i] + dx, Centres(ver)[j] + dy);
    SquareIsFunction(ver, i, j, p);
    AlignmentIsClear(ver, i, j, p);
    AlignmentPicture(dx, dy);
    var dark := DrawnModule(segs, ver, ecl, mask, p);
    if Near(p, Centres(ver)[i], Centres(ver)[j], 1) {
      LightInHeart(dark, ver, i, j, p);
    } else {
      RingOfSquare(ver, i, j, p);
      hide InHeart;
      LightOutsideHearts(dark, ver, p);
    }
  }

  lemma CornersAre(ver: Version, i: nat, j: nat)
    requires i < NumAlign(ver) && j < NumAlign(ver)
    ensures var u, v, last := AlignPos(ver, i), AlignPos(ver, j), SizeOf(ver) - 7;
            IsFinderCorner(ver, i, j) ==> (u == 6 && v == 6) || (u == 6 && v == last) || (u == last && v == 6)
  {
    hide AlignPos, NumAlign;
    AlignPositions(ver, i);
    AlignPositions(ver, j);
  }
}
