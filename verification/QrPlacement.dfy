/**
 Placing the codewords on the grid in zigzag order: section 7.7.3 of ISO/IEC 18004:2015.
 */
module QrPlacement {
  import opened Bits
  import opened QrTables
  import opened QrGrid
  import opened QrFunctionModules
  import opened QrCapacity

  // ---- The zigzag path

  /** Index of the right column of the c-th column pair; the pairs left of column 6 are shifted by one. */
  function RightOf(size: int, c: nat): int {
    var right := size - 1 - 2 * c;
    if right <= 6 then right - 1 else right
  }

  function Pairs(size: int): int {
    (size - 1) / 2
  }

  /** ((right + 1) & 2) == 0. */
  predicate IsUpward(right: int) {
    (right + 1) / 2 % 2 == 0
  }

  /** The t-th module visited in a column pair. */
  function StepPoint(size: int, right: int, t: int): Point {
    var vert := t / 2;
    (right - t % 2, if IsUpward(right) then size - 1 - vert else vert)
  }

  /** When a module of a column pair is visited. */
  function StepOf(size: int, right: int, p: Point): int {
    2 * (if IsUpward(right) then size - 1 - p.1 else p.1) + (right - p.0)
  }

  function PairPath(size: int, right: int, t: nat): seq<Point> {
    if t == 0 then [] else PairPath(size, right, t - 1) + [StepPoint(size, right, t - 1)]
  }

  /** The modules visited in the first c column pairs. */
  function Zigzag(size: int, c: nat): seq<Point>
    requires size >= 0
  {
    if c == 0 then [] else Zigzag(size, c - 1) + PairPath(size, RightOf(size, c - 1), 2 * size)
  }

  ghost predicate NoDuplicates(path: seq<Point>) {
    forall i, j | 0 <= i < j < |path| :: path[i] != path[j]
  }

  predicate InPair(size: int, right: int, p: Point) {
    right - 1 <= p.0 <= right && 0 <= p.1 < size
  }

  lemma {:induction false} PairPathVisits(size: int, right: int, t: nat)
    requires size >= 21 && t <= 2 * size
    ensures forall p: Point :: p in PairPath(size, right, t) <==> InPair(size, right, p) && StepOf(size, right, p) < t
    ensures NoDuplicates(PairPath(size, right, t))
  {
    if t > 0 {
      var path, p := PairPath(size, right, t - 1), StepPoint(size, right, t - 1);
      PairPathVisits(size, right, t - 1);
      assert InPair(size, right, p) && StepOf(size, right, p) == t - 1;
      forall q: Point | InPair(size, right, q) && StepOf(size, right, q) == t - 1
        ensures q == p
      {
      }
    }
  }

  lemma NoDuplicatesConcat(a: seq<Point>, b: seq<Point>)
    requires NoDuplicates(a) && NoDuplicates(b)
    requires forall p | p in b :: p !in a
    ensures NoDuplicates(a + b)
  {
    forall i, j | 0 <= i < j < |a + b|
      ensures (a + b)[i] != (a + b)[j]
    {
      if i < |a| <= j {
        assert (a + b)[i] in a && (a + b)[j] in b;
      }
    }
  }

  /** The first c column pairs are every module right of the next pair, outside column 6. */
  predicate Visited(size: int, c: nat, p: Point) {
    InBounds(size, p.0, p.1) && p.0 > RightOf(size, c) && p.0 != 6
  }

  lemma {:induction false} ZigzagVisits(size: int, c: nat)
    requires size >= 21 && size % 2 == 1 && c <= Pairs(size)
    ensures forall p: Point :: p in Zigzag(size, c) <==> Visited(size, c, p)
    ensures NoDuplicates(Zigzag(size, c))
  {
    if c > 0 {
      var right := RightOf(size, c - 1);
      var path, pair := Zigzag(size, c - 1), PairPath(size, right, 2 * size);
      ZigzagVisits(size, c - 1);
      PairPathVisits(size, right, 2 * size);
      forall p: Point
        ensures p in path + pair <==> Visited(size, c, p)
      {
        assert p in pair <==> InPair(size, right, p);
        assert p in path <==> Visited(size, c - 1, p);
      }
      NoDuplicatesConcat(path, pair);
    }
  }

  /** The scan visits every module outside column 6 exactly once. */
  lemma ZigzagCovers(size: int)
    requires size >= 21 && size % 2 == 1
    ensures forall p: Point :: p in Zigzag(size, Pairs(size)) <==> InBounds(size, p.0, p.1) && p.0 != 6
    ensures NoDuplicates(Zigzag(size, Pairs(size)))
  {
    ZigzagVisits(size, Pairs(size));
  }

  // ---- The modules left for data, in the order of the scan

  ghost function LightAlong(path: seq<Point>, dark: set<Point>): seq<Point> {
    if path == [] then []
    else
      var n := |path| - 1;
      LightAlong(path[..n], dark) + (if path[n] in dark then [] else [path[n]])
  }

  lemma {:induction false} LightAlongIs(path: seq<Point>, dark: set<Point>)
    ensures forall p :: p in LightAlong(path, dark) <==> p in path && p !in dark
    ensures NoDuplicates(path) ==> NoDuplicates(LightAlong(path, dark))
  {
    if path != [] {
      var n := |path| - 1;
      LightAlongIs(path[..n], dark);
      assert path == path[..n] + [path[n]];
    }
  }

  /** The order in which the modules of the version receive the codeword bits. */
  ghost function DataOrder(ver: Version): seq<Point> {
    LightAlong(Zigzag(SizeOf(ver), Pairs(SizeOf(ver))), FunctionModules(ver))
  }

  ghost function Elements(s: seq<Point>): set<Point> {
    set p | p in s
  }

  lemma {:induction false} CountElements(s: seq<Point>)
    requires NoDuplicates(s)
    ensures |Elements(s)| == |s|
  {
    if s != [] {
      var n := |s| - 1;
      CountElements(s[..n]);
      assert Elements(s) == Elements(s[..n]) + {s[n]};
      assert s[n] !in s[..n];
    }
  }

  /** The scan gives each data module one turn, so there are getNumRawDataModules of them. */
  lemma DataOrderCoversDataModules(ver: Version)
    ensures NoDuplicates(DataOrder(ver))
    ensures Elements(DataOrder(ver)) == DataModules(ver)
    ensures |DataOrder(ver)| == NumRawDataModules(ver)
  {
    hide FunctionModules, Zigzag, LightAlong;
    var size := SizeOf(ver);
    var path := Zigzag(size, Pairs(size));
    ZigzagCovers(size);
    LightAlongIs(path, FunctionModules(ver));
    ColumnSixIsFunction(ver);
    CountElements(DataOrder(ver));
    DataModulesCount(ver);
  }

  lemma ColumnSixIsFunction(ver: Version)
    ensures forall p: Point | InBounds(SizeOf(ver), p.0, p.1) && p.0 == 6 :: p in FunctionModules(ver)
  {
    hide FinderModules, AlignColumns, VersionModules;
  }

  // ---- Drawing

  /** The modules that the set bits of a bit string darken. */
  ghost function Placed(order: seq<Point>, bits: seq<bool>): set<Point>
    requires |bits| <= |order|
  {
    set k | 0 <= k < |bits| && bits[k] :: order[k]
  }

  /** After the scan of a path that began on the grid dark0, the first i bits have been placed. */
  ghost predicate Progress(dark: set<Point>, dark0: set<Point>, path: seq<Point>, bits: seq<bool>, i: nat) {
    var order := LightAlong(path, dark0);
    && i == (if |order| <= |bits| then |order| else |bits|)
    && dark == dark0 + Placed(order, bits[..i])
  }

  lemma ProgressStep(dark: set<Point>, dark0: set<Point>, path: seq<Point>, bits: seq<bool>, i: nat, p: Point)
    requires Progress(dark, dark0, path, bits, i) && p !in path
    ensures p in dark <==> p in dark0
    ensures p !in dark && i < |bits| ==>
              Progress(if bits[i] then dark + {p} else dark - {p}, dark0, path + [p], bits, i + 1)
    ensures p in dark || i >= |bits| ==> Progress(dark, dark0, path + [p], bits, i)
  {
    var order := LightAlong(path, dark0);
    LightAlongIs(path, dark0);
    assert (path + [p])[..|path|] == path;
    if p !in dark0 && i < |bits| {
      assert bits[..i + 1] == bits[..i] + [bits[i]];
      PlacedSnoc(order, bits[..i], p, bits[i]);
    } else if p !in dark0 {
      PlacedLonger(order, bits[..i], p);
    }
  }

  lemma PlacedSnoc(order: seq<Point>, bits: seq<bool>, p: Point, bit: bool)
    requires |bits| == |order|
    ensures Placed(order + [p], bits + [bit]) == Placed(order, bits) + (if bit then {p} else {})
  {
    var all, some := Placed(order + [p], bits + [bit]), Placed(order, bits);
    forall q: Point
      ensures q in all <==> q in some || (bit && q == p)
    {
      if q in some {
        var k :| 0 <= k < |bits| && bits[k] && order[k] == q;
        assert (bits + [bit])[k] && (order + [p])[k] == q;
      }
      if bit && q == p {
        assert (bits + [bit])[|bits|] && (order + [p])[|bits|] == q;
      }
    }
  }

  lemma PlacedLonger(order: seq<Point>, bits: seq<bool>, p: Point)
    requires |bits| <= |order|
    ensures Placed(order + [p], bits) == Placed(order, bits)
  {
    forall k | 0 <= k < |bits|
      ensures (order + [p])[k] == order[k]
    {
    }
  }

  ghost function PathSoFar(size: int, c: nat, t: nat): seq<Point>
    requires size >= 0
  {
    Zigzag(size, c) + PairPath(size, RightOf(size, c), t)
  }

  lemma NextPointIsNew(size: int, c: nat, t: nat)
    requires size >= 21 && size % 2 == 1 && c < Pairs(size) && t < 2 * size
    ensures var p := StepPoint(size, RightOf(size, c), t);
            && InBounds(size, p.0, p.1) && p !in PathSoFar(size, c, t)
            && PathSoFar(size, c, t + 1) == PathSoFar(size, c, t) + [p]
  {
    ZigzagVisits(size, c);
    PairPathVisits(size, RightOf(size, c), t);
  }

  /** drawCodewords: the bits of the data go, in order, to the modules that are light at the start. */
  method DrawCodewords(data: array<byte>, dataLen: nat, qrcode: array<byte>, ghost ver: Version)
    requires data != qrcode && dataLen <= data.Length && 8 * dataLen <= NumRawDataModules(ver)
    requires IsGrid(qrcode[..]) && qrcode[0] == SizeOf(ver) && Dark(qrcode[..]) == FunctionModules(ver)
    modifies qrcode
    ensures IsGrid(qrcode[..]) && qrcode[0] == SizeOf(ver)
    ensures |DataOrder(ver)| == NumRawDataModules(ver)
    ensures Dark(qrcode[..]) == FunctionModules(ver) + Placed(DataOrder(ver), BufferBits(data[..], 8 * dataLen))
  {
    hide NumRawDataModules, BufferLen, DataOrder, FunctionModules, Progress, Dark, Zigzag;
    ghost var dark0, bits := Dark(qrcode[..]), BufferBits(data[..], 8 * dataLen);
    ProgressStarts(dark0, bits);
    var i := DrawColumnPairs(data, dataLen, qrcode, dark0);
    ProgressEnds(ver, Dark(qrcode[..]), bits, i);
    assert i == dataLen * 8;
  }

  /** The zigzag scan of drawCodewords, and the number of bits that it places. */
  method DrawColumnPairs(data: array<byte>, dataLen: nat, qrcode: array<byte>, ghost dark0: set<Point>)
    returns (i: nat)
    requires data != qrcode && dataLen <= data.Length
    requires IsGrid(qrcode[..]) && qrcode[0] % 2 == 1
    requires Progress(Dark(qrcode[..]), dark0, [], BufferBits(data[..], 8 * dataLen), 0)
    modifies qrcode
    ensures IsGrid(qrcode[..]) && qrcode[0] == old(qrcode[0])
    ensures Progress(Dark(qrcode[..]), dark0, Zigzag(qrcode[0], Pairs(qrcode[0])), BufferBits(data[..], 8 * dataLen), i)
  {
    hide Progress, Zigzag, Dark, RightOf, Pairs, BufferLen;
    i := 0;
    var size: int := qrcode[0];
    var right := size - 1;
    ghost var c := 0;
    FirstPair(size);
    while right >= 1
      invariant 0 <= c <= Pairs(size) && (right < 1 <==> c == Pairs(size))
      invariant RightOf(size, c) == if right == 6 then 5 else right
      invariant IsGrid(qrcode[..]) && qrcode[0] == size
      invariant Progress(Dark(qrcode[..]), dark0, Zigzag(size, c), BufferBits(data[..], 8 * dataLen), i)
      decreases right
    {
      if right == 6 {
        right := 5;
      }
      NextPair(size, c);
      i := DrawColumnPair(data, dataLen, qrcode, right, i, c, dark0);
      right := right - 2;
      c := c + 1;
    }
  }

  lemma FirstPair(size: int)
    requires size >= 21
    ensures Pairs(size) >= 10 && RightOf(size, 0) == size - 1 && Zigzag(size, 0) == []
  {
  }

  lemma NextPair(size: int, c: nat)
    requires size % 2 == 1 && c < Pairs(size)
    ensures RightOf(size, c) >= 1 && (RightOf(size, c) < 3 <==> c + 1 == Pairs(size))
    ensures var next := RightOf(size, c) - 2;
            RightOf(size, c + 1) == if next == 6 then 5 else next
  {
  }

  lemma ProgressStarts(dark0: set<Point>, bits: seq<bool>)
    ensures Progress(dark0, dark0, [], bits, 0)
  {
  }

  lemma ProgressEnds(ver: Version, dark: set<Point>, bits: seq<bool>, i: nat)
    requires |bits| <= NumRawDataModules(ver)
    requires Progress(dark, FunctionModules(ver), Zigzag(SizeOf(ver), Pairs(SizeOf(ver))), bits, i)
    ensures i == |bits| && |DataOrder(ver)| == NumRawDataModules(ver)
    ensures dark == FunctionModules(ver) + Placed(DataOrder(ver), bits)
  {
    hide FunctionModules, Zigzag, Pairs, LightAlong, Placed, NumRawDataModules;
    DataOrderCoversDataModules(ver);
    assert bits[..|bits|] == bits;
  }

  /** The two inner loops of drawCodewords: one column pair. */
  method DrawColumnPair(data: array<byte>, dataLen: nat, qrcode: array<byte>, right: int, i0: nat, ghost c: nat,
                        ghost dark0: set<Point>)
    returns (i: nat)
    requires data != qrcode && dataLen <= data.Length
    requires IsGrid(qrcode[..]) && qrcode[0] % 2 == 1 && c < Pairs(qrcode[0]) && right == RightOf(qrcode[0], c)
    requires Progress(Dark(qrcode[..]), dark0, Zigzag(qrcode[0], c), BufferBits(data[..], 8 * dataLen), i0)
    modifies qrcode
    ensures IsGrid(qrcode[..]) && qrcode[0] == old(qrcode[0])
    ensures Progress(Dark(qrcode[..]), dark0, Zigzag(qrcode[0], c + 1), BufferBits(data[..], 8 * dataLen), i)
  {
    hide Progress, Zigzag, Dark, PathSoFar, BufferBits, RightOf, Pairs, StepPoint, BufferLen;
    i := i0;
    var size := qrcode[0];
    ghost var bits := BufferBits(data[..], 8 * dataLen);
    PathStarts(size, c);
    for vert := 0 to size
      invariant IsGrid(qrcode[..]) && qrcode[0] == size
      invariant Progress(Dark(qrcode[..]), dark0, PathSoFar(size, c, 2 * vert), bits, i)
    {
      for j := 0 to 2
        invariant IsGrid(qrcode[..]) && qrcode[0] == size
        invariant Progress(Dark(qrcode[..]), dark0, PathSoFar(size, c, 2 * vert + j), bits, i)
      {
        var x := right - j;
        var upward := (right + 1) / 2 % 2 == 0;
        var y := if upward then size - 1 - vert else vert;
        NextPointIsNew(size, c, 2 * vert + j);
        StepPointIs(size, right, vert, j);
        i := DrawModule(data, dataLen, qrcode, x, y, i, PathSoFar(size, c, 2 * vert + j), dark0);
      }
    }
  }

  lemma StepPointIs(size: int, right: int, vert: nat, j: nat)
    requires j < 2
    ensures StepPoint(size, right, 2 * vert + j) ==
              (right - j, if (right + 1) / 2 % 2 == 0 then size - 1 - vert else vert)
  {
  }

  /** The body of those loops: one module, which takes the next bit unless it is dark or the data is used up. */
  method DrawModule(data: array<byte>, dataLen: nat, qrcode: array<byte>, x: int, y: int, i0: nat,
                    ghost path: seq<Point>, ghost dark0: set<Point>)
    returns (i: nat)
    requires data != qrcode && dataLen <= data.Length
    requires IsGrid(qrcode[..]) && InBounds(qrcode[0], x, y) && (x, y) !in path
    requires Progress(Dark(qrcode[..]), dark0, path, BufferBits(data[..], 8 * dataLen), i0)
    modifies qrcode
    ensures IsGrid(qrcode[..]) && qrcode[0] == old(qrcode[0])
    ensures Progress(Dark(qrcode[..]), dark0, path + [(x, y)], BufferBits(data[..], 8 * dataLen), i)
  {
    hide Progress, Dark, Bit;
    i := i0;
    ghost var bits := BufferBits(data[..], 8 * dataLen);
    ProgressStep(Dark(qrcode[..]), dark0, path, bits, i, (x, y));
    var isDark := GetModule(qrcode, x, y);
    if !isDark && i < dataLen * 8 {
      var dark := Bit(data[i / 8], 7 - i % 8);
      assert dark == bits[i];
      SetModule(qrcode, x, y, dark);
      i := i + 1;
    }
  }

  lemma PathStarts(size: int, c: nat)
    requires size >= 0
    ensures PathSoFar(size, c, 0) == Zigzag(size, c)
    ensures PathSoFar(size, c, 2 * size) == Zigzag(size, c + 1)
  {
  }

  // ---- Reading back

  /** The modules of the given order, as bits. */
  ghost function ReadBits(dark: set<Point>, order: seq<Point>, n: nat): (b: seq<bool>)
    requires n <= |order|
    ensures |b| == n
  {
    seq(n, k requires 0 <= k < n => order[k] in dark)
  }

  lemma PlacedBitsReadBack(dark0: set<Point>, order: seq<Point>, bits: seq<bool>)
    requires |bits| <= |order| && NoDuplicates(order)
    requires forall p | p in order :: p !in dark0
    ensures ReadBits(dark0 + Placed(order, bits), order, |bits|) == bits
  {
    forall k | 0 <= k < |bits|
      ensures order[k] in dark0 + Placed(order, bits) <==> bits[k]
    {
      if order[k] in Placed(order, bits) {
        var m :| 0 <= m < |bits| && bits[m] && order[m] == order[k];
        assert m == k;
      }
    }
  }

  /** Reading the modules in the same order recovers every codeword, and no function module has changed. */
  lemma CodewordsReadBack(ver: Version, codewords: seq<byte>)
    requires 8 * |codewords| <= NumRawDataModules(ver)
    ensures |DataOrder(ver)| == NumRawDataModules(ver)
    ensures var dark := FunctionModules(ver) + Placed(DataOrder(ver), BufferBits(codewords, 8 * |codewords|));
            && BytesOf(ReadBits(dark, DataOrder(ver), 8 * |codewords|)) == codewords
            && FunctionModules(ver) <= dark
            && dark - FunctionModules(ver) <= DataModules(ver)
  {
    var bits := BufferBits(codewords, 8 * |codewords|);
    DataOrderCoversDataModules(ver);
    assert forall p | p in DataOrder(ver) :: p in Elements(DataOrder(ver));
    PlacedBitsReadBack(FunctionModules(ver), DataOrder(ver), bits);
    BytesOfBufferBits(codewords, |codewords|);
  }
}
