/**
 Runs of modules of one colour along a line of the grid, and the finder-like patterns among them.
 */
module QrRuns {
  import opened Bits

  // ---- Runs of a line

  /** Runs alternate in colour and the first, possibly empty, one is light: run i is dark when i is odd. */
  predicate IsDarkRun(i: int) {
    i % 2 == 1
  }

  /** The runs after one more module of colour c. */
  function Extend(r: seq<nat>, c: bool): (s: seq<nat>)
    requires |r| >= 1
    ensures |s| >= 1
  {
    var last := |r| - 1;
    if c == IsDarkRun(last) then r[last := r[last] + 1] else r + [1]
  }

  /** The lengths of the runs of a line. */
  function Runs(line: seq<bool>): (r: seq<nat>)
    ensures |r| >= 1
  {
    if line == [] then [0] else Extend(Runs(line[..|line| - 1]), line[|line| - 1])
  }

  lemma RunsSnoc(line: seq<bool>, c: bool)
    ensures Runs(line + [c]) == Extend(Runs(line), c)
  {
    assert (line + [c])[..|line|] == line;
  }

  /** The line that a list of run lengths describes. */
  function Expand(r: seq<nat>): seq<bool> {
    if r == [] then []
    else
      var last := |r| - 1;
      Expand(r[..last]) + Same(r[last], IsDarkRun(last))
  }

  function Same(n: nat, color: bool): seq<bool> {
    if n == 0 then [] else Same(n - 1, color) + [color]
  }

  ghost predicate ProperRuns(r: seq<nat>) {
    |r| >= 1 && forall i | 1 <= i < |r| :: r[i] >= 1
  }

  lemma ExpandSnoc(r: seq<nat>, n: nat)
    ensures Expand(r + [n]) == Expand(r) + Same(n, IsDarkRun(|r|))
  {
    assert (r + [n])[..|r|] == r;
  }

  lemma ExpandExtend(r: seq<nat>, c: bool)
    requires |r| >= 1
    ensures Expand(Extend(r, c)) == Expand(r) + [c]
  {
    hide Expand, Same, IsDarkRun, Extend;
    var last := |r| - 1;
    ExtendIs(r, c);
    if c == IsDarkRun(last) {
      LongerLastRun(r[..last], r[last], c);
    } else {
      OtherColor(last, c);
      ExpandSnoc(r, 1);
      SameSnoc(0, c);
    }
  }

  lemma ExtendIs(r: seq<nat>, c: bool)
    requires |r| >= 1
    ensures var last := |r| - 1;
            && r == r[..last] + [r[last]]
            && Extend(r, c) == if c == IsDarkRun(last) then r[..last] + [r[last] + 1] else r + [1]
  {
    hide IsDarkRun;
  }

  lemma LongerLastRun(init: seq<nat>, n: nat, c: bool)
    requires c == IsDarkRun(|init|)
    ensures Expand(init + [n + 1]) == Expand(init + [n]) + [c]
  {
    hide Expand, Same, IsDarkRun;
    ExpandSnoc(init, n);
    ExpandSnoc(init, n + 1);
    SameSnoc(n, c);
    assert Expand(init) + (Same(n, c) + [c]) == (Expand(init) + Same(n, c)) + [c];
  }

  lemma SameSnoc(n: nat, c: bool)
    ensures Same(n + 1, c) == Same(n, c) + [c] && Same(0, c) == []
  {
  }

  lemma OtherColor(i: int, c: bool)
    requires c != IsDarkRun(i)
    ensures c == IsDarkRun(i + 1)
  {
  }

  /** The runs describe the line. */
  lemma {:induction false} RunsDescribeLine(line: seq<bool>)
    ensures Expand(Runs(line)) == line && ProperRuns(Runs(line))
  {
    hide Expand, Extend, IsDarkRun;
    if line == [] {
      ExpandEmptyRun();
    } else {
      var n := |line| - 1;
      RunsDescribeLine(line[..n]);
      ExpandExtend(Runs(line[..n]), line[n]);
      ExtendProper(Runs(line[..n]), line[n]);
      assert line == line[..n] + [line[n]];
    }
  }

  lemma ExpandEmptyRun()
    ensures Expand([0]) == []
  {
    assert Expand([0]) == Expand([0][..0]) + Same(0, false);
  }

  lemma ExtendProper(r: seq<nat>, c: bool)
    requires ProperRuns(r)
    ensures ProperRuns(Extend(r, c))
  {
  }

  /** There is no other way to describe a line with later runs that are not empty. */
  lemma {:induction false} DescriptionIsUnique(r: seq<nat>)
    requires ProperRuns(r)
    ensures Runs(Expand(r)) == r
    decreases |r|, r[|r| - 1]
  {
    hide IsDarkRun;
    var last := |r| - 1;
    if r[last] == 0 {
      assert r == [0] && r[..0] == [];
      assert Expand(r) == Expand(r[..0]) + Same(0, IsDarkRun(0)) == [];
    } else {
      var c := IsDarkRun(last);
      var shorter := r[last := r[last] - 1];
      if r[last] > 1 || last == 0 {
        assert Extend(shorter, c) == r;
        ExpandExtend(shorter, c);
        DescriptionIsUnique(shorter);
        RunsSnoc(Expand(shorter), c);
      } else {
        var init := r[..last];
        SameColorTwice(last);
        assert Extend(init, c) == init + [1] == r;
        ExpandExtend(init, c);
        DescriptionIsUnique(init);
        RunsSnoc(Expand(init), c);
      }
    }
  }

  lemma SameColorTwice(i: int)
    ensures IsDarkRun(i) != IsDarkRun(i - 1)
  {
  }

  // ---- Runs of a line in a light border

  /** The line between two light borders as wide as the grid. */
  function Bordered(line: seq<bool>, border: nat): seq<bool> {
    Zeros(border) + line + Zeros(border)
  }

  function BorderedRuns(line: seq<bool>, border: nat): seq<nat> {
    Runs(Bordered(line, border))
  }

  lemma {:induction false} RunsOfLight(n: nat)
    ensures Runs(Zeros(n)) == [n]
  {
    if n > 0 {
      RunsOfLight(n - 1);
      assert Zeros(n) == Zeros(n - 1) + [false];
      RunsSnoc(Zeros(n - 1), false);
    }
  }

  /** r with its first run lengthened by n. */
  function LongerFirst(r: seq<nat>, n: nat): (s: seq<nat>)
    requires |r| >= 1
    ensures |s| == |r|
  {
    r[0 := r[0] + n]
  }

  lemma ExtendLongerFirst(r: seq<nat>, n: nat, c: bool)
    requires |r| >= 1
    ensures Extend(LongerFirst(r, n), c) == LongerFirst(Extend(r, c), n)
  {
    hide IsDarkRun;
  }

  lemma NoRuns()
    ensures Runs([]) == [0] && forall n: nat :: LongerFirst([0], n) == [n]
  {
  }

  /** A light border in front only lengthens the first run. */
  lemma {:induction false} RunsAfterBorder(line: seq<bool>, border: nat)
    ensures Runs(Zeros(border) + line) == LongerFirst(Runs(line), border)
  {
    hide Runs, Extend, LongerFirst;
    if line == [] {
      RunsOfLight(border);
      NoRuns();
      assert Zeros(border) + line == Zeros(border);
    } else {
      var n := |line| - 1;
      var init := line[..n];
      RunsAfterBorder(init, border);
      RunsSnoc(init, line[n]);
      assert line == init + [line[n]];
      assert Zeros(border) + line == (Zeros(border) + init) + [line[n]];
      RunsSnoc(Zeros(border) + init, line[n]);
      ExtendLongerFirst(Runs(init), border, line[n]);
    }
  }

  /** A light border behind lengthens a last light run, or makes a new one. */
  function WithTail(r: seq<nat>, n: nat): seq<nat>
    requires |r| >= 1
  {
    var last := |r| - 1;
    if IsDarkRun(last) then r + [n] else r[last := r[last] + n]
  }

  lemma {:induction false} RunsBeforeBorder(line: seq<bool>, border: nat)
    requires border > 0
    ensures Runs(line + Zeros(border)) == WithTail(Runs(line), border)
  {
    hide Runs, Extend, WithTail;
    if border == 1 {
      assert line + Zeros(border) == line + [false];
      RunsSnoc(line, false);
      TailStarts(Runs(line));
    } else {
      var shorter := line + Zeros(border - 1);
      RunsBeforeBorder(line, border - 1);
      assert line + Zeros(border) == shorter + [false];
      RunsSnoc(shorter, false);
      TailGrows(Runs(line), border - 1);
    }
  }

  lemma TailStarts(r: seq<nat>)
    requires |r| >= 1
    ensures Extend(r, false) == WithTail(r, 1)
  {
  }

  lemma TailGrows(r: seq<nat>, n: nat)
    requires |r| >= 1
    ensures Extend(WithTail(r, n), false) == WithTail(r, n + 1)
  {
    OtherColorOrSame(|r| - 1);
  }

  lemma OtherColorOrSame(i: int)
    ensures IsDarkRun(i) ==> !IsDarkRun(i + 1)
  {
  }

  /** The runs inside the borders, in terms of the runs of the line. */
  lemma BorderedRunsAre(line: seq<bool>, border: nat)
    requires border > 0
    ensures BorderedRuns(line, border) == WithTail(LongerFirst(Runs(line), border), border)
  {
    hide Runs, WithTail, LongerFirst;
    RunsAfterBorder(line, border);
    RunsBeforeBorder(Zeros(border) + line, border);
  }

  // ---- Scores

  function Sum(r: seq<nat>): nat {
    if r == [] then 0 else Sum(r[..|r| - 1]) + r[|r| - 1]
  }

  /** A run of five or more modules scores its length less two. */
  function RunScore(n: nat): nat {
    if n >= 5 then n - 2 else 0
  }

  function RunsScore(r: seq<nat>): nat {
    if r == [] then 0 else RunsScore(r[..|r| - 1]) + RunScore(r[|r| - 1])
  }

  lemma {:induction false} RunsAddUp(line: seq<bool>)
    ensures Sum(Runs(line)) == |line| && |Runs(line)| <= |line| + 1
  {
    hide Runs, Sum, Extend;
    if line == [] {
      NoRuns();
      SumSnoc([], 0);
    } else {
      var n := |line| - 1;
      RunsAddUp(line[..n]);
      assert line == line[..n] + [line[n]];
      RunsSnoc(line[..n], line[n]);
      SumExtend(Runs(line[..n]), line[n]);
    }
  }

  lemma SumSnoc(r: seq<nat>, n: nat)
    ensures Sum(r + [n]) == Sum(r) + n && Sum([]) == 0 && [] + [n] == [n]
  {
    assert (r + [n])[..|r|] == r;
  }

  lemma SumExtend(r: seq<nat>, c: bool)
    requires |r| >= 1
    ensures Sum(Extend(r, c)) == Sum(r) + 1 && |Extend(r, c)| <= |r| + 1
  {
    hide Sum, Extend, IsDarkRun;
    var last := |r| - 1;
    ExtendIs(r, c);
    SumSnoc(r, 1);
    SumSnoc(r[..last], r[last]);
    SumSnoc(r[..last], r[last] + 1);
  }

  lemma {:induction false} RunsScoreBound(r: seq<nat>)
    ensures RunsScore(r) <= Sum(r)
  {
    if r != [] {
      RunsScoreBound(r[..|r| - 1]);
    }
  }

  // ---- Finder-like patterns

  /** The run k places before the last one, or 0. */
  function Back(r: seq<nat>, k: nat): nat {
    if k < |r| then r[|r| - 1 - k] else 0
  }

  /** The last seven runs, latest first: what runHistory holds. */
  function History(r: seq<nat>): (h: seq<nat>)
    ensures |h| == 7 && forall k | 0 <= k < 7 :: h[k] == Back(r, k)
  {
    seq(7, k => if k >= 0 then Back(r, k) else 0)
  }

  lemma HistorySnoc(r: seq<nat>, n: nat)
    ensures History(r + [n]) == [n] + History(r)[..6]
  {
    var h := [n] + History(r)[..6];
    forall k | 0 <= k < 7
      ensures History(r + [n])[k] == h[k]
    {
      if k > 0 {
        assert Back(r + [n], k) == Back(r, k - 1);
      }
    }
  }

  /** Dark, light, dark, light, dark in the proportion 1:1:3:1:1, read backwards from h[1]. */
  predicate HasCore(h: seq<nat>)
    requires |h| == 7
  {
    var n := h[1];
    n > 0 && h[2] == n && h[3] == n * 3 && h[4] == n && h[5] == n
  }

  /** finderPenaltyCountPatterns: a core counts once for each side with four light modules a unit. */
  function PatternCount(h: seq<nat>): (c: nat)
    requires |h| == 7
    ensures c <= 2 && (c > 0 ==> HasCore(h))
  {
    (if HasCore(h) && h[0] >= h[1] * 4 && h[6] >= h[1] then 1 else 0)
    + (if HasCore(h) && h[6] >= h[1] * 4 && h[0] >= h[1] then 1 else 0)
  }

  /** Of seven runs, latest first, the inner five must be in the proportion 1:1:3:1:1, one of the outer two at least
      four units long and the other at least one. */
  lemma PatternCountExactly(h: seq<nat>, n: nat)
    requires |h| == 7 && n > 0 && h[1] == n
    ensures PatternCount(h) == 2 <==> h[1..6] == [n, n, 3 * n, n, n] && h[0] >= 4 * n && h[6] >= 4 * n
    ensures PatternCount(h) == 1 <==>
              h[1..6] == [n, n, 3 * n, n, n] && ((n <= h[0] < 4 * n <= h[6]) || (n <= h[6] < 4 * n <= h[0]))
  {
    var five := [n, n, 3 * n, n, n];
    assert h[1..6] == [h[1], h[2], h[3], h[4], h[5]];
    assert h[1..6] == five <==> h[2] == n && h[3] == 3 * n && h[4] == n && h[5] == n by {
      if h[1..6] == five {
        assert h[1..6][1] == n && h[1..6][2] == 3 * n && h[1..6][3] == n && h[1..6][4] == n;
      }
    }
  }

  /** The patterns that end at a light run of r. */
  function FinderCount(r: seq<nat>): nat {
    if r == [] then 0
    else
      var last := |r| - 1;
      FinderCount(r[..last]) + (if IsDarkRun(last) then 0 else PatternCount(History(r)))
  }

  /** r without its last run if that one is dark. */
  function UpToLight(r: seq<nat>): seq<nat>
    requires |r| >= 1
  {
    if IsDarkRun(|r| - 1) then r[..|r| - 1] else r
  }

  lemma FinderCountByTwo(r: seq<nat>)
    requires |r| >= 2
    ensures FinderCount(r) == FinderCount(r[..|r| - 2]) + PatternCount(History(UpToLight(r)))
  {
    hide PatternCount, History, FinderCount, IsDarkRun;
    var a, b := r[..|r| - 1], r[..|r| - 2];
    SameColorTwice(|r| - 1);
    FinderCountUnfold(r);
    FinderCountUnfold(a);
    assert a[..|a| - 1] == b;
  }

  lemma FinderCountUnfold(r: seq<nat>)
    requires |r| >= 1
    ensures FinderCount(r) == FinderCount(r[..|r| - 1]) + (if IsDarkRun(|r| - 1) then 0 else PatternCount(History(r)))
  {
  }

  /** Two cores never end at neighbouring light runs, so half of the light runs at most end a pattern. */
  lemma {:induction false} FinderCountBound(r: seq<nat>)
    ensures FinderCount(r) <= |r| / 2 + 2
  {
    if |r| >= 4 {
      var b, d := r[..|r| - 2], r[..|r| - 4];
      FinderCountBound(d);
      assert UpToLight(b) == UpToLight(r)[..|UpToLight(r)| - 2];
      hide FinderCount, IsDarkRun, UpToLight;
      FinderCountByTwo(r);
      FinderCountByTwo(b);
      assert b[..|b| - 2] == d;
      CoresAreApart(UpToLight(r));
    } else if |r| > 0 {
      FinderCountBound(r[..|r| - 1]);
      var h := History(r);
      assert h[4] == 0;
    }
  }

  lemma CoresAreApart(r: seq<nat>)
    requires |r| >= 2
    ensures !(HasCore(History(r)) && HasCore(History(r[..|r| - 2])))
  {
    var h, g := History(r), History(r[..|r| - 2]);
    var s := r[..|r| - 2];
    assert Back(s, 1) == Back(r, 3) && Back(s, 2) == Back(r, 4);
  }
}
