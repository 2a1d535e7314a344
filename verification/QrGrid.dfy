/**
 The grid of modules of a QR Code, packed one module a bit into a byte buffer whose first byte
 is the side length, and its function modules: section 6.3 of ISO/IEC 18004:2015.
 */
module QrGrid {
  import opened Bits
  import Arith
  import opened QrTables

  type Point = (int, int)

  // ---- The packed buffer

  function SizeOf(ver: Version): int {
    ver * 4 + 17
  }

  /** The bytes that a grid of the given size takes, the first byte included. */
  function BufferLen(size: int): int {
    (size * size + 7) / 8 + 1
  }

  ghost predicate IsGrid(q: seq<byte>) {
    |q| >= 1 && 21 <= q[0] <= 177 && |q| >= BufferLen(q[0])
  }

  predicate InBounds(size: int, x: int, y: int) {
    0 <= x < size && 0 <= y < size
  }

  function Index(size: int, x: int, y: int): int {
    y * size + x
  }

  lemma IndexInBuffer(size: int, x: int, y: int)
    requires size > 0 && InBounds(size, x, y)
    ensures 0 <= Index(size, x, y) < size * size
    ensures 1 <= Index(size, x, y) / 8 + 1 < BufferLen(size)
  {
    Arith.RowColumn(size, y, x, size);
  }

  lemma IndexIsInjective(size: int, x: int, y: int, u: int, v: int)
    requires size > 0 && InBounds(size, x, y) && InBounds(size, u, v)
    requires Index(size, x, y) == Index(size, u, v)
    ensures x == u && y == v
  {
    Arith.RowColumn(size, y, x, size);
    Arith.RowColumn(size, v, u, size);
  }

  /** The bit of the buffer that holds module (x, y). */
  predicate ModuleBit(q: seq<byte>, x: int, y: int)
    requires IsGrid(q) && InBounds(q[0], x, y)
  {
    IndexInBuffer(q[0], x, y);
    BitAt(q, Index(q[0], x, y))
  }

  predicate BitAt(q: seq<byte>, index: nat)
    requires index / 8 + 1 < |q|
  {
    Bit(q[index / 8 + 1], index % 8)
  }

  function WithBitAt(q: seq<byte>, index: nat, value: bool): (r: seq<byte>)
    requires index / 8 + 1 < |q|
    ensures |r| == |q| && r[0] == q[0]
  {
    q[index / 8 + 1 := WithBit(q[index / 8 + 1], index % 8, value)]
  }

  lemma WithBitAtBits(q: seq<byte>, index: nat, value: bool, k: nat)
    requires index / 8 + 1 < |q| && k / 8 + 1 < |q|
    ensures BitAt(WithBitAt(q, index, value), k) == if k == index then value else BitAt(q, k)
  {
    if k / 8 == index / 8 {
      assert k % 8 == index % 8 <==> k == index;
    }
  }

  /** Writing the bit of one module changes that module only. */
  lemma WithModule(q: seq<byte>, x: int, y: int, isDark: bool)
    requires IsGrid(q) && InBounds(q[0], x, y)
    requires 0 <= Index(q[0], x, y) && Index(q[0], x, y) / 8 + 1 < |q|
    ensures IsGrid(WithBitAt(q, Index(q[0], x, y), isDark))
    ensures Dark(WithBitAt(q, Index(q[0], x, y), isDark)) == Painted(Dark(q), (x, y), isDark)
  {
    hide WithBitAt, BitAt, BufferLen, Index;
    var r := WithBitAt(q, Index(q[0], x, y), isDark);
    forall u, v | InBounds(q[0], u, v)
      ensures ModuleBit(r, u, v) == if (u, v) == (x, y) then isDark else ModuleBit(q, u, v)
    {
      IndexInBuffer(q[0], u, v);
      WithBitAtBits(q, Index(q[0], x, y), isDark, Index(q[0], u, v));
      if Index(q[0], x, y) == Index(q[0], u, v) {
        IndexIsInjective(q[0], x, y, u, v);
      }
    }
  }

  /** The dark modules of the grid. */
  ghost function Dark(q: seq<byte>): set<Point>
    requires IsGrid(q)
  {
    set x, y | 0 <= x < q[0] && 0 <= y < q[0] && ModuleBit(q, x, y) :: (x, y)
  }

  /** The grid after module p has been given a colour. */
  ghost function Painted(dark: set<Point>, p: Point, isDark: bool): set<Point> {
    if isDark then dark + {p} else dark - {p}
  }

  /** getModuleBounded. */
  method GetModule(qrcode: array<byte>, x: int, y: int) returns (dark: bool)
    requires IsGrid(qrcode[..]) && InBounds(qrcode[0], x, y)
    ensures dark <==> (x, y) in Dark(qrcode[..])
  {
    IndexInBuffer(qrcode[0], x, y);
    var index := Index(qrcode[0], x, y);
    dark := Bit(qrcode[index / 8 + 1], index % 8);
  }

  /** setModuleBounded. */
  method SetModule(qrcode: array<byte>, x: int, y: int, isDark: bool)
    requires IsGrid(qrcode[..]) && InBounds(qrcode[0], x, y)
    modifies qrcode
    ensures IsGrid(qrcode[..]) && qrcode[0] == old(qrcode[0])
    ensures Dark(qrcode[..]) == Painted(old(Dark(qrcode[..])), (x, y), isDark)
  {
    ghost var before := qrcode[..];
    IndexInBuffer(qrcode[0], x, y);
    WithModule(before, x, y, isDark);
    var index := Index(qrcode[0], x, y);
    qrcode[index / 8 + 1] := WithBit(qrcode[index / 8 + 1], index % 8, isDark);
    assert qrcode[..] == WithBitAt(before, index, isDark);
  }

  /** setModuleUnbounded: does nothing out of bounds. */
  method SetModuleUnbounded(qrcode: array<byte>, x: int, y: int, isDark: bool)
    requires IsGrid(qrcode[..])
    modifies qrcode
    ensures IsGrid(qrcode[..]) && qrcode[0] == old(qrcode[0])
    ensures Dark(qrcode[..]) ==
            if InBounds(qrcode[0], x, y) then Painted(old(Dark(qrcode[..])), (x, y), isDark) else old(Dark(qrcode[..]))
  {
    var size := qrcode[0];
    if 0 <= x < size && 0 <= y < size {
      SetModule(qrcode, x, y, isDark);
    }
  }

  // ---- Rectangles

  ghost function Rect(left: int, top: int, width: int, height: int): (r: set<Point>)
    ensures forall p: Point :: p in r <==> left <= p.0 < left + width && top <= p.1 < top + height
  {
    set x, y | left <= x < left + width && top <= y < top + height :: (x, y)
  }

  method FillRectangle(left: int, top: int, width: int, height: int, qrcode: array<byte>)
    requires IsGrid(qrcode[..]) && width >= 0 && height >= 0
    requires 0 <= left && 0 <= top && left + width <= qrcode[0] && top + height <= qrcode[0]
    modifies qrcode
    ensures IsGrid(qrcode[..]) && qrcode[0] == old(qrcode[0])
    ensures Dark(qrcode[..]) == old(Dark(qrcode[..])) + Rect(left, top, width, height)
  {
    hide Dark, Rect, BufferLen;
    ghost var before := Dark(qrcode[..]);
    for dy := 0 to height
      invariant IsGrid(qrcode[..]) && qrcode[0] == old(qrcode[0])
      invariant Dark(qrcode[..]) == before + Rect(left, top, width, dy)
    {
      for dx := 0 to width
        invariant IsGrid(qrcode[..]) && qrcode[0] == old(qrcode[0])
        invariant Dark(qrcode[..]) == before + Rect(left, top, width, dy) + Rect(left, top + dy, dx, 1)
      {
        SetModule(qrcode, left + dx, top + dy, true);
        assert Rect(left, top + dy, dx + 1, 1) == Rect(left, top + dy, dx, 1) + {(left + dx, top + dy)};
      }
      assert Rect(left, top, width, dy + 1) == Rect(left, top, width, dy) + Rect(left, top + dy, width, 1);
    }
  }

  // ---- Counting rectangles

  lemma {:induction false} RowCount(left: int, top: int, width: nat)
    ensures |Rect(left, top, width, 1)| == width
  {
    if width == 0 {
      assert Rect(left, top, 0, 1) == {};
    } else {
      RowCount(left, top, width - 1);
      assert Rect(left, top, width, 1) == Rect(left, top, width - 1, 1) + {(left + width - 1, top)};
    }
  }

  lemma {:induction false} RectCount(left: int, top: int, width: nat, height: nat)
    ensures |Rect(left, top, width, height)| == width * height
  {
    hide Rect;
    Arith.MulSuccessor(width, height - 1);
    if height == 0 {
      assert Rect(left, top, width, 0) == {};
    } else {
      RectCount(left, top, width, height - 1);
      RowCount(left, top + height - 1, width);
      assert Rect(left, top, width, height) ==
               Rect(left, top, width, height - 1) + Rect(left, top + height - 1, width, 1);
      assert Rect(left, top, width, height - 1) !! Rect(left, top + height - 1, width, 1);
    }
  }

  /** A set of modules within the grid has at most as many elements as the grid. */
  lemma WithinGridCount(s: set<Point>, size: nat)
    requires forall p | p in s :: InBounds(size, p.0, p.1)
    ensures |s| <= size * size
  {
    RectCount(0, 0, size, size);
    SubsetCount(s, Rect(0, 0, size, size));
  }

  lemma SubsetCount(s: set<Point>, t: set<Point>)
    requires s <= t
    ensures |s| <= |t|
  {
    assert t == s + (t - s);
  }
}
