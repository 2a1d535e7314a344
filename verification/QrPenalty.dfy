/**
 The penalty score of a grid, by which the mask is chosen: section 7.8.3 of ISO/IEC 18004:2015.
 */
module QrPenalty {
  import Arith
  import opened Bits
  import opened QrGrid
  import opened QrRuns

  const PENALTY_N1 := 3
  const PENALTY_N2 := 3
  const PENALTY_N3 := 40
  const PENALTY_N4 := 10

  // ---- The score, declaratively

  /** Module t of row k, or of column k. */
  function LinePoint(k: int, t: int, isColumn: bool): Point {
    if isColumn then (k, t) else (t, k)
  }

  ghost function Line(dark: set<Point>, size: nat, k: int, isColumn: bool): (l: seq<bool>)
    ensures |l| == size && forall t | 0 <= t < size :: l[t] == (LinePoint(k, t, isColumn) in dark)
  {
    seq(size, t requires 0 <= t < size => LinePoint(k, t, isColumn) in dark)
  }

  /** Long runs of one colour, and finder-like patterns in the line with its light surroundings. */
  function LineScore(line: seq<bool>): nat {
    RunsScore(Runs(line)) + PENALTY_N3 * FinderCount(BorderedRuns(line, |line|))
  }

  ghost function LinesScore(dark: set<Point>, size: nat, n: nat, isColumn: bool): nat {
    if n == 0 then 0 else LinesScore(dark, size, n - 1, isColumn) + LineScore(Line(dark, size, n - 1, isColumn))
  }

  ghost predicate IsBlock(dark: set<Point>, x: int, y: int) {
    ((x, y) in dark) == ((x + 1, y) in dark) == ((x, y + 1) in dark) == ((x + 1, y + 1) in dark)
  }

  /** The top left corners of the 2*2 blocks of one colour. */
  ghost function Blocks(dark: set<Point>, size: int): set<Point> {
    set x, y | 0 <= x < size - 1 && 0 <= y < size - 1 && IsBlock(dark, x, y) :: (x, y)
  }

  /** (45 - 5k)% <= dark/total <= (55 + 5k)%. */
  predicate Balanced(dark: int, total: int, k: int) {
    (45 - 5 * k) * total <= 100 * dark <= (55 + 5 * k) * total
  }

  function Abs(n: int): nat {
    if n < 0 then -n else n
  }

  function BalanceSteps(dark: int, total: int): int
    requires total > 0
  {
    (Abs(dark * 20 - total * 10) + total - 1) / total - 1
  }

  ghost function PenaltyScore(dark: set<Point>, size: nat): int
    requires size > 0
  {
    LinesScore(dark, size, size, false) + LinesScore(dark, size, size, true)
    + PENALTY_N2 * |Blocks(dark, size)| + PENALTY_N4 * BalanceSteps(|dark|, size * size)
  }

  /** A block is four modules of the grid that touch in a corner and have one colour. */
  lemma BlocksAre(dark: set<Point>, size: int, x: int, y: int)
    ensures (x, y) in Blocks(dark, size) <==>
              InBounds(size, x, y) && InBounds(size, x + 1, y + 1)
              && ({(x, y), (x + 1, y), (x, y + 1), (x + 1, y + 1)} <= dark
                  || {(x, y), (x + 1, y), (x, y + 1), (x + 1, y + 1)} !! dark)
  {
    var four := {(x, y), (x + 1, y), (x, y + 1), (x + 1, y + 1)};
    assert (x, y) in four && (x + 1, y) in four && (x, y + 1) in four && (x + 1, y + 1) in four;
  }

  /** The weights of the four rules: a run of n >= 5 scores 3 + (n - 5), a finder-like pattern 40, a block 3, and each
      step of imbalance 10. */
  lemma PenaltyWeights(dark: set<Point>, size: nat, line: seq<bool>, n: nat)
    requires size > 0
    ensures PenaltyScore(dark, size) == LinesScore(dark, size, size, false) + LinesScore(dark, size, size, true)
                                        + 3 * |Blocks(dark, size)| + 10 * BalanceSteps(|dark|, size * size)
    ensures LineScore(line) == RunsScore(Runs(line)) + 40 * FinderCount(BorderedRuns(line, |line|))
    ensures RunScore(n) == if n < 5 then 0 else 3 + (n - 5)
  {
    hide BalanceSteps, Blocks, FinderCount, Runs;
  }

  // ---- The balance of dark and light

  /** For an odd number of modules, the formula gives the least k with the stated bounds, between 0 and 9. */
  lemma BalanceStepsIsLeast(dark: int, total: int)
    requires total > 0 && total % 2 == 1 && 0 <= dark <= total
    ensures var k := BalanceSteps(dark, total);
            && 0 <= k <= 9 && Balanced(dark, total, k)
            && forall m | 0 <= m < k :: !Balanced(dark, total, m)
  {
    hide Balanced, BalanceSteps, Abs;
    var d := Abs(dark * 20 - total * 10);
    var k := BalanceSteps(dark, total);
    ImbalanceBounds(dark, total);
    LeastMultiple(dark, total, d);
    BalancedIff(dark, total, k);
    forall m | 0 <= m < k
      ensures !Balanced(dark, total, m)
    {
      BalancedIff(dark, total, m);
      Arith.MulMonotone(total, m + 1, k);
    }
  }

  lemma ImbalanceBounds(dark: int, total: int)
    requires total > 0 && total % 2 == 1 && 0 <= dark <= total
    ensures 0 < Abs(dark * 20 - total * 10) <= total * 10
  {
  }

  lemma LeastMultiple(dark: int, total: int, d: int)
    requires total > 0 && 0 < d <= total * 10 && d == Abs(dark * 20 - total * 10)
    ensures var k := BalanceSteps(dark, total);
            0 <= k <= 9 && total * k < d <= total * (k + 1)
  {
    hide Abs;
    Arith.RowBelow(d - 1, total, 10);
    var q := (d - 1) / total;
    Arith.MulSuccessor(total, q);
    Arith.DivideUnique(d + total - 1, total, q + 1, (d - 1) % total);
  }

  lemma BalancedIff(dark: int, total: int, k: int)
    ensures Balanced(dark, total, k) <==> Abs(dark * 20 - total * 10) <= total * (k + 1)
  {
    assert (45 - 5 * k) * total == 45 * total - 5 * (k * total);
    assert (55 + 5 * k) * total == 55 * total + 5 * (k * total);
    assert total * (k + 1) == k * total + total;
  }

  // ---- Run history

  /** The history with one more run, which a light border lengthens if it is the first. */
  function Pushed(h: seq<nat>, n: nat, size: nat): (g: seq<nat>)
    requires |h| == 7
    ensures |g| == 7
  {
    [n + (if h[0] == 0 then size else 0)] + h[..6]
  }

  /** finderPenaltyAddHistory. */
  method AddHistory(currentRunLength: nat, runHistory: array<nat>, size: nat)
    requires runHistory.Length == 7
    modifies runHistory
    ensures runHistory[..] == Pushed(old(runHistory[..]), currentRunLength, size)
    ensures runHistory[0] <= currentRunLength + size && forall k | 1 <= k < 7 :: runHistory[k] == old(runHistory[k - 1])
  {
    var length := currentRunLength;
    if runHistory[0] == 0 {
      length := length + size;
    }
    forall k | 1 <= k < 7 {
      runHistory[k] := runHistory[k - 1];
    }
    runHistory[0] := length;
  }

  /** finderPenaltyCountPatterns. */
  method CountPatterns(runHistory: array<nat>, size: nat) returns (count: nat)
    requires runHistory.Length == 7 && runHistory[1] <= size * 3
    ensures count == PatternCount(runHistory[..])
  {
    var n := runHistory[1];
    assert n <= size * 3;
    var core := n > 0 && runHistory[2] == n && runHistory[3] == n * 3 && runHistory[4] == n && runHistory[5] == n;
    count := 0;
    if core && runHistory[0] >= n * 4 && runHistory[6] >= n {
      count := count + 1;
    }
    if core && runHistory[6] >= n * 4 && runHistory[0] >= n {
      count := count + 1;
    }
  }

  /** The history after the last run and the light border behind the line. */
  function Terminated(h: seq<nat>, runColor: bool, runLength: nat, size: nat): (g: seq<nat>)
    requires |h| == 7
    ensures |g| == 7
  {
    if runColor then Pushed(Pushed(h, runLength, size), size, size) else Pushed(h, runLength + size, size)
  }

  /** finderPenaltyTerminateAndCount. */
  method TerminateAndCount(currentRunColor: bool, currentRunLength: nat, runHistory: array<nat>, size: nat)
    returns (count: nat)
    requires runHistory.Length == 7 && currentRunLength <= size && forall k | 0 <= k < 7 :: runHistory[k] <= size * 2
    modifies runHistory
    ensures count == PatternCount(Terminated(old(runHistory[..]), currentRunColor, currentRunLength, size))
  {
    hide PatternCount;
    var length := currentRunLength;
    if currentRunColor {
      AddHistory(length, runHistory, size);
      length := 0;
    }
    length := length + size;
    AddHistory(length, runHistory, size);
    count := CountPatterns(runHistory, size);
  }

  // ---- One line

  /** The runs completed so far, with the light border in front. */
  function Padded(completed: seq<nat>, size: nat): seq<nat> {
    if completed == [] then [] else LongerFirst(completed, size)
  }

  lemma PaddedSnoc(completed: seq<nat>, n: nat, size: nat)
    requires size > 0 && (forall i | 1 <= i < |completed| :: completed[i] >= 1)
    ensures var h := History(Padded(completed, size));
            History(Padded(completed + [n], size)) == Pushed(h, n, size)
    ensures FinderCount(Padded(completed + [n], size)) == FinderCount(Padded(completed, size))
              + (if IsDarkRun(|completed|) then 0 else PatternCount(History(Padded(completed + [n], size))))
  {
    hide PatternCount, IsDarkRun;
    var before, after := Padded(completed, size), Padded(completed + [n], size);
    if completed == [] {
      assert after == before + [n + size];
      HistorySnoc(before, n + size);
    } else {
      assert after == before + [n];
      HistorySnoc(before, n);
      assert Back(before, 0) == before[|before| - 1] > 0;
    }
    assert after[..|after| - 1] == before;
  }

  /** What the scan of a line knows after a prefix of it. */
  ghost predicate Scanned(prefix: seq<bool>, size: nat, h: seq<nat>, runLength: nat, runColor: bool, score: nat) {
    var r := Runs(prefix);
    var last := |r| - 1;
    && runLength == r[last] && runColor == IsDarkRun(last)
    && h == History(Padded(r[..last], size))
    && score == RunsScore(r) + PENALTY_N3 * FinderCount(Padded(r[..last], size))
  }

  /** The points for a run that has just reached length n. */
  function Gain(n: nat): nat {
    if n == 5 then PENALTY_N1 else if n > 5 then 1 else 0
  }

  lemma ScanStarts(size: nat)
    ensures Scanned([], size, [0, 0, 0, 0, 0, 0, 0], 0, false, 0)
  {
    var r := Runs([]);
    assert r[..0] == [] && RunsScore(r) == RunsScore(r[..0]) + RunScore(0) == 0;
    assert History([]) == [0, 0, 0, 0, 0, 0, 0];
  }

  lemma ScanSameColor(prefix: seq<bool>, size: nat, h: seq<nat>, n: nat, c: bool, score: nat)
    requires Scanned(prefix, size, h, n, c, score)
    ensures Scanned(prefix + [c], size, h, n + 1, c, score + Gain(n + 1))
  {
    hide History, FinderCount, IsDarkRun;
    var r := Runs(prefix);
    var last := |r| - 1;
    var s := r[last := n + 1];
    RunsSnoc(prefix, c);
    assert s[..last] == r[..last];
  }

  lemma ScanOtherColor(prefix: seq<bool>, size: nat, h: seq<nat>, n: nat, c: bool, score: nat)
    requires size > 0 && |h| == 7 && Scanned(prefix, size, h, n, c, score)
    ensures var g := Pushed(h, n, size);
            Scanned(prefix + [!c], size, g, 1, !c, score + (if c then 0 else PatternCount(g) * PENALTY_N3))
  {
    hide History, FinderCount, IsDarkRun, PatternCount, Runs, Padded, RunsScore, Pushed, Expand;
    var r := Runs(prefix);
    var last := |r| - 1;
    RunsDescribeLine(prefix);
    ExtendIs(r, !c);
    assert (r + [1])[..last + 1] == r;
    RunsSnoc(prefix, !c);
    PaddedSnoc(r[..last], n, size);
    OtherColor(last, !c);
    RunsScoreSnoc(r, 1);
  }

  lemma RunsScoreSnoc(r: seq<nat>, n: nat)
    ensures RunsScore(r + [n]) == RunsScore(r) + RunScore(n)
  {
    assert (r + [n])[..|r|] == r;
  }

  lemma ScanEnds(line: seq<bool>, h: seq<nat>, n: nat, c: bool, score: nat)
    requires |line| > 0 && |h| == 7 && Scanned(line, |line|, h, n, c, score)
    ensures score + PatternCount(Terminated(h, c, n, |line|)) * PENALTY_N3 == LineScore(line)
  {
    hide History, FinderCount, IsDarkRun, PatternCount, Runs, Padded, RunsScore, Pushed, Expand, LongerFirst, WithTail;
    var size := |line|;
    var r := Runs(line);
    var last := |r| - 1;
    RunsDescribeLine(line);
    BorderedRunsAre(line, size);
    ExtendIs(r, !c);
    if c {
      PaddedSnoc(r[..last], n, size);
      PaddedSnoc(r, size, size);
      OtherColor(last, false);
    } else {
      PaddedSnoc(r[..last], n + size, size);
    }
    TailIsPadded(r, size);
  }

  lemma TailIsPadded(r: seq<nat>, size: nat)
    requires |r| >= 1
    ensures WithTail(LongerFirst(r, size), size) ==
            if IsDarkRun(|r| - 1) then Padded(r + [size], size) else Padded(r[..|r| - 1] + [r[|r| - 1] + size], size)
  {
    hide IsDarkRun;
  }

  ghost predicate HistoryWithin(h: seq<nat>, size: nat) {
    |h| == 7 && forall k | 0 <= k < 7 :: h[k] <= size * 2
  }

  /** The body of the scan of a line: one more module, of the given colour. */
  method ScanModule(color: bool, runHistory: array<nat>, size: nat, runLength0: nat, runColor0: bool, score0: nat,
                    ghost prefix: seq<bool>)
    returns (runLength: nat, runColor: bool, score: nat)
    requires size > 0 && HistoryWithin(runHistory[..], size) && runLength0 < size
    requires Scanned(prefix, size, runHistory[..], runLength0, runColor0, score0)
    modifies runHistory
    ensures HistoryWithin(runHistory[..], size) && runLength <= runLength0 + 1
    ensures Scanned(prefix + [color], size, runHistory[..], runLength, runColor, score)
  {
    hide Scanned, PatternCount, Pushed;
    runLength, runColor, score := runLength0, runColor0, score0;
    if color == runColor {
      ScanSameColor(prefix, size, runHistory[..], runLength, runColor, score);
      runLength := runLength + 1;
      if runLength == 5 {
        score := score + PENALTY_N1;
      } else if runLength > 5 {
        score := score + 1;
      }
    } else {
      ScanOtherColor(prefix, size, runHistory[..], runLength, runColor, score);
      AddHistory(runLength, runHistory, size);
      if !runColor {
        var count := CountPatterns(runHistory, size);
        score := score + count * PENALTY_N3;
      }
      runColor := color;
      runLength := 1;
    }
  }

  /** One turn of the loops over rows or columns. */
  method ScoreLine(qrcode: array<byte>, k: int, isColumn: bool) returns (score: nat)
    requires IsGrid(qrcode[..]) && 0 <= k < qrcode[0]
    ensures score == LineScore(Line(Dark(qrcode[..]), qrcode[0], k, isColumn))
  {
    hide Scanned, Dark, PatternCount, BufferLen, LineScore, Terminated;
    var size: int := qrcode[0];
    ghost var line := Line(Dark(qrcode[..]), size, k, isColumn);
    var runColor := false;
    var runLength: nat := 0;
    var runHistory := new nat[7](_ => 0);
    score := 0;
    ScanStarts(size);
    assert runHistory[..] == [0, 0, 0, 0, 0, 0, 0] && line[..0] == [];
    for t := 0 to size
      invariant Scanned(line[..t], size, runHistory[..], runLength, runColor, score)
      invariant runLength <= t && HistoryWithin(runHistory[..], size)
    {
      var color := GetModule(qrcode, if isColumn then k else t, if isColumn then t else k);
      assert color == line[t] && line[..t + 1] == line[..t] + [color];
      runLength, runColor, score := ScanModule(color, runHistory, size, runLength, runColor, score, line[..t]);
    }
    assert line[..size] == line;
    ScanEnds(line, runHistory[..], runLength, runColor, score);
    var count := TerminateAndCount(runColor, runLength, runHistory, size);
    score := score + count * PENALTY_N3;
  }

  // ---- The whole grid

  /** getPenaltyScore. */
  method GetPenaltyScore(qrcode: array<byte>) returns (result: int)
    requires IsGrid(qrcode[..]) && qrcode[0] % 2 == 1
    ensures result == PenaltyScore(Dark(qrcode[..]), qrcode[0])
    ensures 0 <= result <= 2568888
  {
    hide LineScore, IsBlock, Line, Dark, BufferLen, Blocks, Abs, PenaltyScore;
    var size: int := qrcode[0];
    ghost var dark := Dark(qrcode[..]);
    result := 0;
    for y := 0 to size
      invariant result == LinesScore(dark, size, y, false)
    {
      var score := ScoreLine(qrcode, y, false);
      result := result + score;
    }
    for x := 0 to size
      invariant result == LinesScore(dark, size, size, false) + LinesScore(dark, size, x, true)
    {
      var score := ScoreLine(qrcode, x, true);
      result := result + score;
    }
    var blocks := CountBlocks(qrcode);
    result := result + blocks * PENALTY_N2;
    var count := CountDark(qrcode);
    var total := size * size;
    var k := (Abs(count * 20 - total * 10) + total - 1) / total - 1;
    result := result + k * PENALTY_N4;
    DarkInBounds(qrcode[..]);
    ScoreIs(dark, size, k);
    PenaltyBound(dark, size);
  }

  lemma ScoreIs(dark: set<Point>, size: nat, k: int)
    requires size > 0 && k == (Abs(|dark| * 20 - size * size * 10) + size * size - 1) / (size * size) - 1
    ensures PenaltyScore(dark, size) == LinesScore(dark, size, size, false) + LinesScore(dark, size, size, true)
                                        + |Blocks(dark, size)| * PENALTY_N2 + k * PENALTY_N4
  {
    hide LinesScore, Blocks, Abs;
  }

  method CountBlocks(qrcode: array<byte>) returns (count: nat)
    requires IsGrid(qrcode[..])
    ensures count == |Blocks(Dark(qrcode[..]), qrcode[0])|
  {
    hide Dark, BufferLen, IsBlock;
    var size: int := qrcode[0];
    ghost var dark := Dark(qrcode[..]);
    ghost var found: set<Point> := {};
    count := 0;
    for y := 0 to size - 1
      invariant count == |found|
      invariant forall p: Point :: p in found <==> 0 <= p.0 < size - 1 && 0 <= p.1 < y && IsBlock(dark, p.0, p.1)
    {
      for x := 0 to size - 1
        invariant count == |found|
        invariant forall p: Point :: p in found <==>
                    0 <= p.0 < size - 1 && (0 <= p.1 < y || (p.1 == y && p.0 < x)) && IsBlock(dark, p.0, p.1)
      {
        var color := GetModule(qrcode, x, y);
        var right := GetModule(qrcode, x + 1, y);
        var below := GetModule(qrcode, x, y + 1);
        var diagonal := GetModule(qrcode, x + 1, y + 1);
        SameColorIsBlock(dark, x, y, color, right, below, diagonal);
        if color == right && color == below && color == diagonal {
          found := found + {(x, y)};
          count := count + 1;
        }
      }
    }
    assert found == Blocks(dark, size);
  }

  lemma SameColorIsBlock(dark: set<Point>, x: int, y: int, color: bool, right: bool, below: bool, diagonal: bool)
    requires color == ((x, y) in dark) && right == ((x + 1, y) in dark)
    requires below == ((x, y + 1) in dark) && diagonal == ((x + 1, y + 1) in dark)
    ensures IsBlock(dark, x, y) <==> color == right && color == below && color == diagonal
  {
  }

  method CountDark(qrcode: array<byte>) returns (dark: nat)
    requires IsGrid(qrcode[..])
    ensures dark == |Dark(qrcode[..])|
  {
    hide Dark, BufferLen;
    var size: int := qrcode[0];
    ghost var all := Dark(qrcode[..]);
    ghost var found: set<Point> := {};
    DarkInBounds(qrcode[..]);
    dark := 0;
    for y := 0 to size
      invariant dark == |found|
      invariant forall p: Point :: p in found <==> p in all && p.1 < y
    {
      for x := 0 to size
        invariant dark == |found|
        invariant forall p: Point :: p in found <==> p in all && (p.1 < y || (p.1 == y && p.0 < x))
      {
        var isDark := GetModule(qrcode, x, y);
        if isDark {
          found := found + {(x, y)};
          dark := dark + 1;
        }
      }
    }
    assert found == all;
  }

  lemma DarkInBounds(q: seq<byte>)
    requires IsGrid(q)
    ensures forall p | p in Dark(q) :: InBounds(q[0], p.0, p.1)
  {
  }

  // ---- The bound that getPenaltyScore asserts

  lemma LineScoreBound(line: seq<bool>)
    requires |line| > 0
    ensures LineScore(line) <= 21 * |line| + 120
  {
    hide Runs, FinderCount, Sum, RunsScore;
    RunsAddUp(line);
    RunsScoreBound(Runs(line));
    BorderedRunsAre(line, |line|);
    FinderCountBound(BorderedRuns(line, |line|));
  }

  lemma {:induction false} LinesScoreBound(dark: set<Point>, size: nat, n: nat, isColumn: bool)
    requires 0 < size <= 177
    ensures LinesScore(dark, size, n, isColumn) <= n * 3837
  {
    hide LineScore, Line;
    if n > 0 {
      LinesScoreBound(dark, size, n - 1, isColumn);
      LineScoreBound(Line(dark, size, n - 1, isColumn));
    }
  }

  lemma PenaltyBound(dark: set<Point>, size: nat)
    requires 21 <= size <= 177 && size % 2 == 1
    requires forall p | p in dark :: InBounds(size, p.0, p.1)
    ensures 0 <= PenaltyScore(dark, size) <= 2568888
  {
    hide LinesScore, BalanceSteps, IsBlock;
    LinesScoreBound(dark, size, size, false);
    LinesScoreBound(dark, size, size, true);
    WithinGridCount(dark, size);
    WithinGridCount(Blocks(dark, size), size);
    SquareIsOdd(size);
    BalanceStepsIsLeast(|dark|, size * size);
  }

  lemma SquareIsOdd(size: nat)
    requires 0 < size <= 177 && size % 2 == 1
    ensures size * size % 2 == 1 && 0 < size * size <= 31329
  {
    var h := size / 2;
    assert size * size == 2 * (2 * h * h + 2 * h) + 1;
    Arith.MulMonotone(size, size, 177);
  }
}
