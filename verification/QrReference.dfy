/**
 What ISO/IEC 18004:2015 shows in tables and pictures, written down apart from the formulas of the encoder, and the
 proof that both agree. In pictures '#' is dark.
 */
module QrReference {
  import opened QrTables
  import opened QrGrid
  import opened QrFunctionModules
  import opened QrMask
  import Arith

  // ---- Mask patterns: figure 21

  /** The height of the tile that repeats over the grid. */
  function TileHeight(mask: Mask): (h: nat)
    ensures h > 0
  {
    match mask case 0 => 2 case 1 => 2 case 2 => 1 case 3 => 3 case 4 => 4 case _ => 6
  }

  /** The tile, row by row; '#' is inverted. */
  function TileRow(mask: Mask, y: nat): (row: string)
    ensures |row| > 0
  {
    match mask
    case 0 => (match y
               case 0 => "#."
               case _ => ".#")
    case 1 => (match y
               case 0 => "#"
               case _ => ".")
    case 2 => "#.."
    case 3 => (match y
               case 0 => "#.."
               case 1 => "..#"
               case _ => ".#.")
    case 4 => (match y
               case 0 => "###..."
               case 1 => "###..."
               case 2 => "...###"
               case _ => "...###")
    case 5 => (match y
               case 0 => "######"
               case 1 => "#....."
               case 2 => "#..#.."
               case 3 => "#.#.#."
               case 4 => "#..#.."
               case _ => "#.....")
    case 6 => (match y
               case 0 => "######"
               case 1 => "###..."
               case 2 => "##.##."
               case 3 => "#.#.#."
               case 4 => "#.##.#"
               case _ => "#...##")
    case 7 => (match y
               case 0 => "#.#.#."
               case 1 => "...###"
               case 2 => "#...##"
               case 3 => ".#.#.#"
               case 4 => "###..."
               case _ => ".###..")
  }

  predicate InTile(mask: Mask, x: nat, y: nat) {
    var row := TileRow(mask, y % TileHeight(mask));
    row[x % |row|] == '#'
  }

  /** The formulas of the mask patterns draw these tiles. */
  lemma PatternIsTiled(mask: Mask, x: nat, y: nat)
    ensures Inverts(mask, x, y) <==> InTile(mask, x, y)
  {
    match mask
    case 0 => SumParity(x, y);
    case 1 =>
    case 2 =>
    case 3 => SumOfThirds(x, y);
    case 4 => HalvesAndThirds(x, y);
    case _ => Sixths(mask, x, y);
  }

  lemma SumParity(x: nat, y: nat)
    ensures Inverts(0, x, y) <==> InTile(0, x, y)
  {
  }

  lemma SumOfThirds(x: nat, y: nat)
    ensures Inverts(3, x, y) <==> InTile(3, x, y)
  {
    var b, d := x % 3, y % 3;
    assert x + y == 3 * (x / 3 + y / 3 + (b + d) / 3) + (b + d) % 3;
    Arith.DivideUnique(x + y, 3, x / 3 + y / 3 + (b + d) / 3, (b + d) % 3);
    ThirdsTile(b, d);
    hide InTile;
    ThirdsRepeat(x, y);
  }

  lemma ThirdsTile(b: nat, d: nat)
    requires b < 3 && d < 3
    ensures (b + d) % 3 == 0 <==> InTile(3, b, d)
  {
  }

  lemma ThirdsRepeat(x: nat, y: nat)
    ensures InTile(3, x, y) <==> InTile(3, x % 3, y % 3)
  {
  }

  lemma HalvesAndThirds(x: nat, y: nat)
    ensures Inverts(4, x, y) <==> InTile(4, x, y)
  {
    var q, r, s, t := x / 6, x % 6, y / 4, y % 4;
    assert x / 3 == 2 * q + r / 3 && y / 2 == 2 * s + t / 2;
    assert (x / 3 + y / 2) % 2 == (r / 3 + t / 2) % 2;
  }

  lemma Sixths(mask: Mask, x: nat, y: nat)
    requires mask >= 5
    ensures Inverts(mask, x, y) <==> InTile(mask, x, y)
  {
    hide InTile;
    SixthsInvert(mask, x, y);
    SixthsTile(mask, x % 6, y % 6);
    TileRepeats(mask, x, y);
  }

  lemma SixthsInvert(mask: Mask, x: nat, y: nat)
    requires mask >= 5
    ensures Inverts(mask, x, y) <==> Inverts(mask, x % 6, y % 6)
  {
    ProductResidue(x, y, 2, 3);
    ProductResidue(x, y, 3, 2);
    SumResidue(x, y);
  }

  lemma SumResidue(x: nat, y: nat)
    ensures (x + y) % 2 == (x % 6 + y % 6) % 2
  {
    var q, r := x / 6, x % 6;
    var s, t := y / 6, y % 6;
    assert x + y == 2 * (3 * q + 3 * s + (r + t) / 2) + (r + t) % 2;
    Arith.DivideUnique(x + y, 2, 3 * q + 3 * s + (r + t) / 2, (r + t) % 2);
  }

  lemma ProductResidue(x: nat, y: nat, m: nat, k: nat)
    requires m > 0 && k > 0 && m * k == 6
    ensures x * y % m == (x % 6) * (y % 6) % m
  {
    ResidueOfResidue(x, m, k);
    ResidueOfResidue(y, m, k);
    ProductModulo(x, y, m);
    ProductModulo(x % 6, y % 6, m);
  }

  lemma ResidueOfResidue(x: nat, m: nat, k: nat)
    requires m > 0 && k > 0 && m * k == 6
    ensures x % 6 % m == x % m
  {
    var q, r := x / 6, x % 6;
    assert x == m * k * q + r && r == m * (r / m) + r % m;
    Arith.Reassociate(m, k, q);
    Arith.Distribute(m, k * q, r / m);
    Arith.DivideUnique(x, m, k * q + r / m, r % m);
  }

  lemma TileRepeats(mask: Mask, x: nat, y: nat)
    requires mask >= 5
    ensures InTile(mask, x, y) <==> InTile(mask, x % 6, y % 6)
  {
    hide TileRow;
    RowsOfSix(mask, y % 6);
    assert y % 6 % 6 == y % 6 && x % 6 % 6 == x % 6;
  }

  lemma RowsOfSix(mask: Mask, y: nat)
    requires mask >= 5
    ensures |TileRow(mask, y)| == 6 && TileHeight(mask) == 6
  {
  }

  lemma SixthsTile(mask: Mask, x: nat, y: nat)
    requires mask >= 5 && x < 6 && y < 6
    ensures Inverts(mask, x, y) <==> InTile(mask, x, y)
  {
    SmallProducts(x, y);
    match mask
    case 5 => TileFive(x, y, x * y);
    case 6 => TileSix(x, y, x * y);
    case 7 => TileSeven(x, y, x * y);
  }

  lemma TileFive(x: nat, y: nat, p: nat)
    requires x < 6 && y < 6 && IsSmallProduct(x, y, p)
    ensures p % 2 + p % 3 == 0 <==> InTile(5, x, y)
  {
    hide InTile, IsSmallProduct;
    if y < 3 {
      TileFiveTop(x, y, p);
    } else {
      TileFiveBottom(x, y, p);
    }
  }

  lemma TileFiveTop(x: nat, y: nat, p: nat)
    requires x < 6 && y < 3 && IsSmallProduct(x, y, p)
    ensures p % 2 + p % 3 == 0 <==> InTile(5, x, y)
  {
    match y case 0 => case 1 => case _ =>
  }

  lemma TileFiveBottom(x: nat, y: nat, p: nat)
    requires x < 6 && 3 <= y < 6 && IsSmallProduct(x, y, p)
    ensures p % 2 + p % 3 == 0 <==> InTile(5, x, y)
  {
    match y case 3 => case 4 => case _ =>
  }

  lemma TileSix(x: nat, y: nat, p: nat)
    requires x < 6 && y < 6 && IsSmallProduct(x, y, p)
    ensures (p % 2 + p % 3) % 2 == 0 <==> InTile(6, x, y)
  {
    hide InTile, IsSmallProduct;
    if y < 3 {
      TileSixTop(x, y, p);
    } else {
      TileSixBottom(x, y, p);
    }
  }

  lemma TileSixTop(x: nat, y: nat, p: nat)
    requires x < 6 && y < 3 && IsSmallProduct(x, y, p)
    ensures (p % 2 + p % 3) % 2 == 0 <==> InTile(6, x, y)
  {
    match y case 0 => case 1 => case _ =>
  }

  lemma TileSixBottom(x: nat, y: nat, p: nat)
    requires x < 6 && 3 <= y < 6 && IsSmallProduct(x, y, p)
    ensures (p % 2 + p % 3) % 2 == 0 <==> InTile(6, x, y)
  {
    match y case 3 => case 4 => case _ =>
  }

  lemma TileSeven(x: nat, y: nat, p: nat)
    requires x < 6 && y < 6 && IsSmallProduct(x, y, p)
    ensures ((x + y) % 2 + p % 3) % 2 == 0 <==> InTile(7, x, y)
  {
    hide InTile, IsSmallProduct;
    if y < 3 {
      TileSevenTop(x, y, p);
    } else {
      TileSevenBottom(x, y, p);
    }
  }

  lemma TileSevenTop(x: nat, y: nat, p: nat)
    requires x < 6 && y < 3 && IsSmallProduct(x, y, p)
    ensures ((x + y) % 2 + p % 3) % 2 == 0 <==> InTile(7, x, y)
  {
    match y case 0 => case 1 => case _ =>
  }

  lemma TileSevenBottom(x: nat, y: nat, p: nat)
    requires x < 6 && 3 <= y < 6 && IsSmallProduct(x, y, p)
    ensures ((x + y) % 2 + p % 3) % 2 == 0 <==> InTile(7, x, y)
  {
    match y case 3 => case 4 => case _ =>
  }

  predicate IsSmallProduct(x: nat, y: nat, p: nat) {
    p == if y == 0 then 0 else if y == 1 then x else if y == 2 then 2 * x else if y == 3 then 3 * x
         else if y == 4 then 4 * x else 5 * x
  }

  lemma SmallProducts(x: nat, y: nat)
    requires x < 6 && y < 6
    ensures IsSmallProduct(x, y, x * y)
  {
  }

  lemma ProductModulo(x: nat, y: nat, m: nat)
    requires m > 0
    ensures x * y % m == (x % m) * (y % m) % m
  {
    var a, b, c, d := x / m, x % m, y / m, y % m;
    assert x == m * a + b && y == m * c + d;
    assert x * y == m * (a * y + b * c) + b * d by {
      assert x * y == m * a * y + b * y;
      assert b * y == b * (m * c) + b * d;
    }
    var q, r := b * d / m, b * d % m;
    assert x * y == m * (a * y + b * c + q) + r;
    Arith.DivideUnique(x * y, m, a * y + b * c + q, r);
  }

  // ---- Alignment pattern centres: table E.1

  function Centres(ver: Version): seq<int> {
    match ver
    case 1 => [] case 2 => [6, 18] case 3 => [6, 22] case 4 => [6, 26] case 5 => [6, 30] case 6 => [6, 34]
    case 7 => [6, 22, 38] case 8 => [6, 24, 42] case 9 => [6, 26, 46] case 10 => [6, 28, 50]
    case 11 => [6, 30, 54] case 12 => [6, 32, 58] case 13 => [6, 34, 62]
    case 14 => [6, 26, 46, 66] case 15 => [6, 26, 48, 70] case 16 => [6, 26, 50, 74] case 17 => [6, 30, 54, 78]
    case 18 => [6, 30, 56, 82] case 19 => [6, 30, 58, 86] case 20 => [6, 34, 62, 90]
    case 21 => [6, 28, 50, 72, 94] case 22 => [6, 26, 50, 74, 98] case 23 => [6, 30, 54, 78, 102]
    case 24 => [6, 28, 54, 80, 106] case 25 => [6, 32, 58, 84, 110] case 26 => [6, 30, 58, 86, 114]
    case 27 => [6, 34, 62, 90, 118]
    case 28 => [6, 26, 50, 74, 98, 122] case 29 => [6, 30, 54, 78, 102, 126] case 30 => [6, 26, 52, 78, 104, 130]
    case 31 => [6, 30, 56, 82, 108, 134] case 32 => [6, 34, 60, 86, 112, 138] case 33 => [6, 30, 58, 86, 114, 142]
    case 34 => [6, 34, 62, 90, 118, 146]
    case 35 => [6, 30, 54, 78, 102, 126, 150] case 36 => [6, 24, 50, 76, 102, 128, 154]
    case 37 => [6, 28, 54, 80, 106, 132, 158] case 38 => [6, 32, 58, 84, 110, 136, 162]
    case 39 => [6, 26, 54, 82, 110, 138, 166] case 40 => [6, 30, 58, 86, 114, 142, 170]
  }

  /** The formula of getAlignmentPatternPositions gives the table. */
  lemma CentresAre(ver: Version)
    ensures |Centres(ver)| == NumAlign(ver)
    ensures forall i | 0 <= i < NumAlign(ver) :: AlignPos(ver, i) == Centres(ver)[i]
  {
    hide NumAlign, AlignPos, Centres;
    match ver / 7
    case 0 => TwoCentres(ver);
    case 1 => ThreeCentres(ver);
    case 2 => FourCentres(ver);
    case 3 => FiveCentres(ver);
    case 4 => SixCentres(ver);
    case 5 => SevenCentres(ver);
  }

  lemma TwoCentres(ver: Version)
    requires ver / 7 == 0
    ensures |Centres(ver)| == NumAlign(ver) && forall i | 0 <= i < NumAlign(ver) :: AlignPos(ver, i) == Centres(ver)[i]
  {
    if ver >= 2 {
      AlignStepFor(ver, 2);
    }
  }

  lemma ThreeCentres(ver: Version)
    requires ver / 7 == 1
    ensures |Centres(ver)| == NumAlign(ver) && forall i | 0 <= i < NumAlign(ver) :: AlignPos(ver, i) == Centres(ver)[i]
  {
    hide AlignStep;
    AlignStepFor(ver, 3);
    var step := (ver * 8 + 14) / 8 * 2;
    assert AlignPos(ver, 1) == SizeOf(ver) - 7 - 1 * step;
  }

  lemma FourCentres(ver: Version)
    requires ver / 7 == 2
    ensures |Centres(ver)| == NumAlign(ver) && forall i | 0 <= i < NumAlign(ver) :: AlignPos(ver, i) == Centres(ver)[i]
  {
    hide AlignStep;
    AlignStepFor(ver, 4);
    var step := (ver * 8 + 17) / 12 * 2;
    assert AlignPos(ver, 1) == SizeOf(ver) - 7 - 2 * step && AlignPos(ver, 2) == SizeOf(ver) - 7 - 1 * step;
  }

  lemma FiveCentres(ver: Version)
    requires ver / 7 == 3
    ensures |Centres(ver)| == NumAlign(ver) && forall i | 0 <= i < NumAlign(ver) :: AlignPos(ver, i) == Centres(ver)[i]
  {
    hide NumAlign, AlignPos, Centres;
    if ver < 24 {
      EarlyFiveCentres(ver);
    } else {
      LateFiveCentres(ver);
    }
  }

  lemma EarlyFiveCentres(ver: Version)
    requires 21 <= ver < 24
    ensures |Centres(ver)| == NumAlign(ver) && forall i | 0 <= i < NumAlign(ver) :: AlignPos(ver, i) == Centres(ver)[i]
  {
    hide AlignStep;
    AlignStepFor(ver, 5);
    var step := (ver * 8 + 20) / 16 * 2;
    assert AlignPos(ver, 1) == SizeOf(ver) - 7 - 3 * step && AlignPos(ver, 2) == SizeOf(ver) - 7 - 2 * step
           && AlignPos(ver, 3) == SizeOf(ver) - 7 - 1 * step;
  }

  lemma LateFiveCentres(ver: Version)
    requires 24 <= ver < 28
    ensures |Centres(ver)| == NumAlign(ver) && forall i | 0 <= i < NumAlign(ver) :: AlignPos(ver, i) == Centres(ver)[i]
  {
    hide AlignStep;
    AlignStepFor(ver, 5);
    var step := (ver * 8 + 20) / 16 * 2;
    assert AlignPos(ver, 1) == SizeOf(ver) - 7 - 3 * step && AlignPos(ver, 2) == SizeOf(ver) - 7 - 2 * step
           && AlignPos(ver, 3) == SizeOf(ver) - 7 - 1 * step;
  }

  lemma SixCentres(ver: Version)
    requires ver / 7 == 4
    ensures |Centres(ver)| == NumAlign(ver) && forall i | 0 <= i < NumAlign(ver) :: AlignPos(ver, i) == Centres(ver)[i]
  {
    hide NumAlign, AlignPos, Centres;
    if ver < 31 {
      EarlySixCentres(ver);
    } else {
      LateSixCentres(ver);
    }
  }

  lemma EarlySixCentres(ver: Version)
    requires 28 <= ver < 31
    ensures |Centres(ver)| == NumAlign(ver) && forall i | 0 <= i < NumAlign(ver) :: AlignPos(ver, i) == Centres(ver)[i]
  {
    hide AlignStep;
    AlignStepFor(ver, 6);
    var step := (ver * 8 + 23) / 20 * 2;
    assert AlignPos(ver, 1) == SizeOf(ver) - 7 - 4 * step && AlignPos(ver, 2) == SizeOf(ver) - 7 - 3 * step
           && AlignPos(ver, 3) == SizeOf(ver) - 7 - 2 * step && AlignPos(ver, 4) == SizeOf(ver) - 7 - 1 * step;
  }

  lemma LateSixCentres(ver: Version)
    requires 31 <= ver < 35
    ensures |Centres(ver)| == NumAlign(ver) && forall i | 0 <= i < NumAlign(ver) :: AlignPos(ver, i) == Centres(ver)[i]
  {
    hide AlignStep;
    AlignStepFor(ver, 6);
    var step := (ver * 8 + 23) / 20 * 2;
    assert AlignPos(ver, 1) == SizeOf(ver) - 7 - 4 * step && AlignPos(ver, 2) == SizeOf(ver) - 7 - 3 * step
           && AlignPos(ver, 3) == SizeOf(ver) - 7 - 2 * step && AlignPos(ver, 4) == SizeOf(ver) - 7 - 1 * step;
  }

  lemma SevenCentres(ver: Version)
    requires ver / 7 == 5
    ensures |Centres(ver)| == NumAlign(ver) && forall i | 0 <= i < NumAlign(ver) :: AlignPos(ver, i) == Centres(ver)[i]
  {
    hide NumAlign, AlignPos, Centres;
    if ver <= 37 {
      EarlySevenCentres(ver);
    } else {
      LateSevenCentres(ver);
    }
  }

  lemma EarlySevenCentres(ver: Version)
    requires 35 <= ver <= 37
    ensures |Centres(ver)| == NumAlign(ver) && forall i | 0 <= i < NumAlign(ver) :: AlignPos(ver, i) == Centres(ver)[i]
  {
    hide AlignStep;
    AlignStepFor(ver, 7);
    var step := (ver * 8 + 26) / 24 * 2;
    assert AlignPos(ver, 1) == SizeOf(ver) - 7 - 5 * step && AlignPos(ver, 2) == SizeOf(ver) - 7 - 4 * step
           && AlignPos(ver, 3) == SizeOf(ver) - 7 - 3 * step && AlignPos(ver, 4) == SizeOf(ver) - 7 - 2 * step
              && AlignPos(ver, 5) == SizeOf(ver) - 7 - 1 * step;
  }

  lemma LateSevenCentres(ver: Version)
    requires 38 <= ver
    ensures |Centres(ver)| == NumAlign(ver) && forall i | 0 <= i < NumAlign(ver) :: AlignPos(ver, i) == Centres(ver)[i]
  {
    hide AlignStep;
    AlignStepFor(ver, 7);
    var step := (ver * 8 + 26) / 24 * 2;
    assert AlignPos(ver, 1) == SizeOf(ver) - 7 - 5 * step && AlignPos(ver, 2) == SizeOf(ver) - 7 - 4 * step
           && AlignPos(ver, 3) == SizeOf(ver) - 7 - 3 * step && AlignPos(ver, 4) == SizeOf(ver) - 7 - 2 * step
              && AlignPos(ver, 5) == SizeOf(ver) - 7 - 1 * step;
  }

  // ---- The modules that carry no codewords: section 6.3

  /** Modules (x, y) and (u, v) are at most d apart in both coordinates. */
  predicate Near(p: Point, u: int, v: int, d: int) {
    -d <= p.0 - u <= d && -d <= p.1 - v <= d
  }

  /** Within one of the alignment patterns, which are where two centre lines cross, but not at a finder pattern. */
  ghost predicate InAlignmentPattern(ver: Version, p: Point) {
    exists u, v :: u in Centres(ver) && v in Centres(ver) && Near(p, u, v, 2)
                   && !(u == 6 && v == 6) && !(u == 6 && v == SizeOf(ver) - 7) && !(u == SizeOf(ver) - 7 && v == 6)
  }

  /** Finder patterns with separators and format information, timing patterns, alignment patterns, version blocks. */
  ghost predicate CarriesNoCodewords(ver: Version, p: Point) {
    var size := SizeOf(ver);
    && InBounds(size, p.0, p.1)
    && ((p.0 <= 8 && p.1 <= 8) || (p.0 >= size - 8 && p.1 <= 8) || (p.0 <= 8 && p.1 >= size - 8)
        || p.0 == 6 || p.1 == 6 || InAlignmentPattern(ver, p)
        || (ver >= 7 && ((size - 11 <= p.0 <= size - 9 && p.1 <= 5) || (size - 11 <= p.1 <= size - 9 && p.0 <= 5))))
  }

  /** The function modules of the encoder are these. */
  lemma FunctionModulesAre(ver: Version)
    ensures forall p :: p in FunctionModules(ver) <==> CarriesNoCodewords(ver, p)
  {
    hide Rect, Centres, InAlignmentPattern, AlignColumns, NumAlign, AlignPos;
    AlignmentPatternsAre(ver);
    AlignmentInGrid(ver);
  }

  lemma {:induction false} InColumn(ver: Version, i: nat, m: nat, p: Point)
    requires i < NumAlign(ver) && m <= NumAlign(ver)
    ensures p in AlignColumn(ver, i, m) <==> exists j :: 0 <= j < m && p in AlignSquare(ver, i, j)
  {
    hide AlignSquare, NumAlign;
    if m > 0 {
      InColumn(ver, i, m - 1, p);
    }
  }

  lemma {:induction false} InColumns(ver: Version, n: nat, p: Point)
    requires n <= NumAlign(ver)
    ensures p in AlignColumns(ver, n) <==>
              exists i, j :: 0 <= i < n && 0 <= j < NumAlign(ver) && p in AlignSquare(ver, i, j)
  {
    hide AlignSquare, NumAlign, AlignColumn;
    if n > 0 {
      InColumns(ver, n - 1, p);
      InColumn(ver, n - 1, NumAlign(ver), p);
    }
  }

  lemma SquareIs(ver: Version, i: nat, j: nat, p: Point)
    requires i < NumAlign(ver) && j < NumAlign(ver)
    ensures var u, v := Centres(ver)[i], Centres(ver)[j];
            p in AlignSquare(ver, i, j) <==>
            Near(p, u, v, 2) && !(u == 6 && v == 6) && !(u == 6 && v == SizeOf(ver) - 7)
            && !(u == SizeOf(ver) - 7 && v == 6)
  {
    hide Rect, Centres, NumAlign, AlignPos;
    CentresAre(ver);
    AlignPositions(ver, i);
    AlignPositions(ver, j);
    EnoughCentres(ver);
  }

  lemma EnoughCentres(ver: Version)
    ensures NumAlign(ver) != 1
    ensures NumAlign(ver) > 0 ==> SizeOf(ver) >= 25
  {
  }

  lemma AlignmentPatternsAre(ver: Version)
    ensures forall p :: p in AlignColumns(ver, NumAlign(ver)) <==> InAlignmentPattern(ver, p)
  {
    hide AlignSquare, NumAlign, AlignPos, Centres, AlignColumns;
    CentresAre(ver);
    forall p: Point
      ensures p in AlignColumns(ver, NumAlign(ver)) <==> InAlignmentPattern(ver, p)
    {
      InColumns(ver, NumAlign(ver), p);
      if p in AlignColumns(ver, NumAlign(ver)) {
        var i, j :| 0 <= i < NumAlign(ver) && 0 <= j < NumAlign(ver) && p in AlignSquare(ver, i, j);
        SquareIs(ver, i, j, p);
        assert Centres(ver)[i] in Centres(ver) && Centres(ver)[j] in Centres(ver);
      }
      if InAlignmentPattern(ver, p) {
        var u, v :| u in Centres(ver) && v in Centres(ver) && Near(p, u, v, 2)
                    && !(u == 6 && v == 6) && !(u == 6 && v == SizeOf(ver) - 7) && !(u == SizeOf(ver) - 7 && v == 6);
        var i :| 0 <= i < NumAlign(ver) && Centres(ver)[i] == u;
        var j :| 0 <= j < NumAlign(ver) && Centres(ver)[j] == v;
        SquareIs(ver, i, j, p);
      }
    }
  }

  lemma AlignmentInGrid(ver: Version)
    ensures forall p | InAlignmentPattern(ver, p) :: InBounds(SizeOf(ver), p.0, p.1)
  {
    hide NumAlign, AlignPos, Centres;
    CentresAre(ver);
    forall i: nat | i < NumAlign(ver)
      ensures 6 <= Centres(ver)[i] <= SizeOf(ver) - 7
    {
      AlignPositions(ver, i);
    }
    assert forall u | u in Centres(ver) :: 6 <= u <= SizeOf(ver) - 7;
  }

  // ---- Data capacity: table 7

  function CodewordsLow(ver: Version): int {
    match ver
    case 1 => 19 case 2 => 34 case 3 => 55 case 4 => 80 case 5 => 108 case 6 => 136 case 7 => 156 case 8 => 194
    case 9 => 232 case 10 => 274 case 11 => 324 case 12 => 370 case 13 => 428 case 14 => 461 case 15 => 523
    case 16 => 589 case 17 => 647 case 18 => 721 case 19 => 795 case 20 => 861 case 21 => 932 case 22 => 1006
    case 23 => 1094 case 24 => 1174 case 25 => 1276 case 26 => 1370 case 27 => 1468 case 28 => 1531 case 29 => 1631
    case 30 => 1735 case 31 => 1843 case 32 => 1955 case 33 => 2071 case 34 => 2191 case 35 => 2306 case 36 => 2434
    case 37 => 2566 case 38 => 2702 case 39 => 2812 case 40 => 2956
  }

  function CodewordsMedium(ver: Version): int {
    match ver
    case 1 => 16 case 2 => 28 case 3 => 44 case 4 => 64 case 5 => 86 case 6 => 108 case 7 => 124 case 8 => 154
    case 9 => 182 case 10 => 216 case 11 => 254 case 12 => 290 case 13 => 334 case 14 => 365 case 15 => 415
    case 16 => 453 case 17 => 507 case 18 => 563 case 19 => 627 case 20 => 669 case 21 => 714 case 22 => 782
    case 23 => 860 case 24 => 914 case 25 => 1000 case 26 => 1062 case 27 => 1128 case 28 => 1193 case 29 => 1267
    case 30 => 1373 case 31 => 1455 case 32 => 1541 case 33 => 1631 case 34 => 1725 case 35 => 1812 case 36 => 1914
    case 37 => 1992 case 38 => 2102 case 39 => 2216 case 40 => 2334
  }

  function CodewordsQuartile(ver: Version): int {
    match ver
    case 1 => 13 case 2 => 22 case 3 => 34 case 4 => 48 case 5 => 62 case 6 => 76 case 7 => 88 case 8 => 110
    case 9 => 132 case 10 => 154 case 11 => 180 case 12 => 206 case 13 => 244 case 14 => 261 case 15 => 295
    case 16 => 325 case 17 => 367 case 18 => 397 case 19 => 445 case 20 => 485 case 21 => 512 case 22 => 568
    case 23 => 614 case 24 => 664 case 25 => 718 case 26 => 754 case 27 => 808 case 28 => 871 case 29 => 911
    case 30 => 985 case 31 => 1033 case 32 => 1115 case 33 => 1171 case 34 => 1231 case 35 => 1286 case 36 => 1354
    case 37 => 1426 case 38 => 1502 case 39 => 1582 case 40 => 1666
  }

  function CodewordsHigh(ver: Version): int {
    match ver
    case 1 => 9 case 2 => 16 case 3 => 26 case 4 => 36 case 5 => 46 case 6 => 60 case 7 => 66 case 8 => 86
    case 9 => 100 case 10 => 122 case 11 => 140 case 12 => 158 case 13 => 180 case 14 => 197 case 15 => 223
    case 16 => 253 case 17 => 283 case 18 => 313 case 19 => 341 case 20 => 385 case 21 => 406 case 22 => 442
    case 23 => 464 case 24 => 514 case 25 => 538 case 26 => 596 case 27 => 628 case 28 => 661 case 29 => 701
    case 30 => 745 case 31 => 793 case 32 => 845 case 33 => 901 case 34 => 961 case 35 => 986 case 36 => 1054
    case 37 => 1096 case 38 => 1142 case 39 => 1222 case 40 => 1276
  }


  function Capacity(ver: Version, ecl: Ecc): int {
    match ecl
    case 0 => CodewordsLow(ver)
    case 1 => CodewordsMedium(ver)
    case 2 => CodewordsQuartile(ver)
    case 3 => CodewordsHigh(ver)
  }

  /** The data codewords that the block tables of the encoder leave at each version and level are those of the
      standard. */
  lemma CapacityIs(ver: Version, ecl: Ecc)
    ensures NumDataCodewords(ver, ecl) == Capacity(ver, ecl)
  {
    hide NumDataCodewords;
    if ver <= 20 {
      match ecl
      case 0 => SmallLowCapacity(ver);
      case 1 => SmallMediumCapacity(ver);
      case 2 => SmallQuartileCapacity(ver);
      case 3 => SmallHighCapacity(ver);
    } else {
      match ecl
      case 0 => LargeLowCapacity(ver);
      case 1 => LargeMediumCapacity(ver);
      case 2 => LargeQuartileCapacity(ver);
      case 3 => LargeHighCapacity(ver);
    }
  }

  lemma SmallLowCapacity(ver: Version)
    requires ver <= 20
    ensures NumDataCodewords(ver, 0) == CodewordsLow(ver)
  {
    hide NumBlocksMedium, NumBlocksQuartile, NumBlocksHigh, EccPerBlockMedium, EccPerBlockQuartile, EccPerBlockHigh;
  }

  lemma LargeLowCapacity(ver: Version)
    requires ver > 20
    ensures NumDataCodewords(ver, 0) == CodewordsLow(ver)
  {
    hide NumBlocksMedium, NumBlocksQuartile, NumBlocksHigh, EccPerBlockMedium, EccPerBlockQuartile, EccPerBlockHigh;
  }

  lemma SmallMediumCapacity(ver: Version)
    requires ver <= 20
    ensures NumDataCodewords(ver, 1) == CodewordsMedium(ver)
  {
    hide NumBlocksLow, NumBlocksQuartile, NumBlocksHigh, EccPerBlockLow, EccPerBlockQuartile, EccPerBlockHigh;
  }

  lemma LargeMediumCapacity(ver: Version)
    requires ver > 20
    ensures NumDataCodewords(ver, 1) == CodewordsMedium(ver)
  {
    hide NumBlocksLow, NumBlocksQuartile, NumBlocksHigh, EccPerBlockLow, EccPerBlockQuartile, EccPerBlockHigh;
  }

  lemma SmallQuartileCapacity(ver: Version)
    requires ver <= 20
    ensures NumDataCodewords(ver, 2) == CodewordsQuartile(ver)
  {
    hide NumBlocksLow, NumBlocksMedium, NumBlocksHigh, EccPerBlockLow, EccPerBlockMedium, EccPerBlockHigh;
  }

  lemma LargeQuartileCapacity(ver: Version)
    requires ver > 20
    ensures NumDataCodewords(ver, 2) == CodewordsQuartile(ver)
  {
    hide NumBlocksLow, NumBlocksMedium, NumBlocksHigh, EccPerBlockLow, EccPerBlockMedium, EccPerBlockHigh;
  }

  lemma SmallHighCapacity(ver: Version)
    requires ver <= 20
    ensures NumDataCodewords(ver, 3) == CodewordsHigh(ver)
  {
    hide NumBlocksLow, NumBlocksMedium, NumBlocksQuartile, EccPerBlockLow, EccPerBlockMedium, EccPerBlockQuartile;
  }

  lemma LargeHighCapacity(ver: Version)
    requires ver > 20
    ensures NumDataCodewords(ver, 3) == CodewordsHigh(ver)
  {
    hide NumBlocksLow, NumBlocksMedium, NumBlocksQuartile, EccPerBlockLow, EccPerBlockMedium, EccPerBlockQuartile;
  }
}
