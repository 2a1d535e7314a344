/**
 Splitting the data codewords into blocks, appending error correction to each block and
 interleaving the blocks: section 7.6 of ISO/IEC 18004:2015.
 */
module Interleave {
  import opened Bits
  import Arith
  import opened ReedSolomon
  import opened QrTables

  /** The numbers that addEccAndInterleave works with. */
  datatype Layout = Layout(numBlocks: int, eccLen: int, raw: int, dataLen: int, numShort: int, shortLen: int) {

    ghost predicate Valid() {
      && 1 <= numShort <= numBlocks
      && 7 <= eccLen <= 30
      && shortLen >= 1
      && dataLen == numBlocks * shortLen + (numBlocks - numShort)
      && raw == dataLen + numBlocks * eccLen
      && dataLen >= numBlocks
      && raw >= dataLen + eccLen
    }

    function BlockLen(i: int): (n: int)
      requires Valid()
      ensures n >= 1
    {
      shortLen + (if i < numShort then 0 else 1)
    }

    /** Where block i starts in the data. */
    function BlockStart(i: nat): nat
      requires Valid()
    {
      if i == 0 then 0 else BlockStart(i - 1) + BlockLen(i - 1)
    }

    /** Where byte j of block i goes. */
    function DataAt(i: int, j: int): int
      requires Valid()
    {
      j * numBlocks + i - (if j == shortLen then numShort else 0)
    }

    /** Where byte j of the error correction of block i goes. */
    function EccAt(i: int, j: int): int
      requires Valid()
    {
      dataLen + i + j * numBlocks
    }

    /** The block that position k of the result belongs to. */
    function BlockOf(k: int): (i: int)
      requires Valid() && 0 <= k < raw
      ensures 0 <= i < numBlocks
    {
      if k < numBlocks * shortLen then k % numBlocks
      else if k < dataLen then numShort + (k - numBlocks * shortLen)
      else (k - dataLen) % numBlocks
    }

    /** The place of position k in its block, or in the error correction of its block. */
    function RowOf(k: int): (j: int)
      requires Valid() && 0 <= k < raw
      ensures j >= 0
    {
      Arith.DivideAtLeast(k, numBlocks, 0);
      Arith.DivideAtLeast(if k < dataLen then k else k - dataLen, numBlocks, 0);
      if k < numBlocks * shortLen then k / numBlocks
      else if k < dataLen then shortLen
      else (k - dataLen) / numBlocks
    }

    /** Byte j of block i lands on a data position of its own. */
    lemma DataAtPlace(i: int, j: int)
      requires Valid() && 0 <= i < numBlocks && 0 <= j < BlockLen(i)
      ensures 0 <= DataAt(i, j) < dataLen
      ensures BlockOf(DataAt(i, j)) == i && RowOf(DataAt(i, j)) == j
    {
      if j < shortLen {
        Arith.RowColumn(numBlocks, j, i, shortLen);
      } else {
        assert j * numBlocks == numBlocks * shortLen;
      }
    }

    lemma EccAtPlace(i: int, j: int)
      requires Valid() && 0 <= i < numBlocks && 0 <= j < eccLen
      ensures dataLen <= EccAt(i, j) < raw
      ensures BlockOf(EccAt(i, j)) == i && RowOf(EccAt(i, j)) == j
    {
      Arith.RowColumn(numBlocks, j, i, eccLen);
      Arith.MulMonotone(numBlocks, 0, shortLen);
    }

    /** Every position of the result is the place of a data or error correction byte. */
    lemma PlaceHasByte(k: int)
      requires Valid() && 0 <= k < raw
      ensures k < dataLen ==> 0 <= RowOf(k) < BlockLen(BlockOf(k)) && DataAt(BlockOf(k), RowOf(k)) == k
      ensures k >= dataLen ==> 0 <= RowOf(k) < eccLen && EccAt(BlockOf(k), RowOf(k)) == k
    {
      if k < numBlocks * shortLen {
        Arith.RowBelow(k, numBlocks, shortLen);
        Arith.Commute(k / numBlocks, numBlocks);
      } else if k < dataLen {
        Arith.Commute(shortLen, numBlocks);
      } else {
        assert k - dataLen < numBlocks * eccLen;
        Arith.RowBelow(k - dataLen, numBlocks, eccLen);
        Arith.Commute((k - dataLen) / numBlocks, numBlocks);
      }
    }

    /** Every position of the result is the place of exactly one data or error correction byte. */
    lemma EveryPlaceHasOneByte(k: int)
      requires Valid() && 0 <= k < raw
      ensures k < dataLen ==> 0 <= RowOf(k) < BlockLen(BlockOf(k)) && DataAt(BlockOf(k), RowOf(k)) == k
      ensures k >= dataLen ==> 0 <= RowOf(k) < eccLen && EccAt(BlockOf(k), RowOf(k)) == k
      ensures forall i, j | 0 <= i < numBlocks && 0 <= j < BlockLen(i) && DataAt(i, j) == k ::
                k < dataLen && i == BlockOf(k) && j == RowOf(k)
      ensures forall i, j | 0 <= i < numBlocks && 0 <= j < eccLen && EccAt(i, j) == k ::
                k >= dataLen && i == BlockOf(k) && j == RowOf(k)
    {
      hide DataAt, EccAt, BlockOf, RowOf;
      PlaceHasByte(k);
      forall i, j | 0 <= i < numBlocks && 0 <= j < BlockLen(i)
        ensures 0 <= DataAt(i, j) < dataLen <= raw && BlockOf(DataAt(i, j)) == i && RowOf(DataAt(i, j)) == j
      {
        DataAtPlace(i, j);
      }
      forall i, j | 0 <= i < numBlocks && 0 <= j < eccLen
        ensures 0 <= dataLen <= EccAt(i, j) < raw && BlockOf(EccAt(i, j)) == i && RowOf(EccAt(i, j)) == j
      {
        EccAtPlace(i, j);
      }
    }

    /** The result takes the first byte of each block, then the second of each, and so on; then the error correction
        in the same way. */
    lemma RowByRow(i: int, j: int, k: int, m: int)
      requires Valid() && 0 <= i < numBlocks && 0 <= k < numBlocks
      ensures 0 <= j < BlockLen(i) && 0 <= m < BlockLen(k) ==>
                (DataAt(i, j) < DataAt(k, m) <==> j < m || (j == m && i < k))
      ensures 0 <= j < eccLen && 0 <= m < eccLen ==>
                (EccAt(i, j) < EccAt(k, m) <==> j < m || (j == m && i < k))
    {
      Arith.Commute(j, numBlocks);
      Arith.Commute(m, numBlocks);
      if j < m {
        Arith.MulSuccessor(numBlocks, j);
        Arith.MulMonotone(numBlocks, j + 1, m);
      } else if m < j {
        Arith.MulSuccessor(numBlocks, m);
        Arith.MulMonotone(numBlocks, m + 1, j);
      }
    }

    /** The blocks are consecutive and cover the data. */
    lemma {:induction false} BlockStarts(i: nat)
      requires Valid() && i <= numBlocks
      ensures BlockStart(i) == i * shortLen + (if i <= numShort then 0 else i - numShort)
      ensures BlockStart(i) <= dataLen
    {
      if i > 0 {
        BlockStarts(i - 1);
        Arith.MulSuccessor(shortLen, i - 1);
        Arith.Commute(i, shortLen);
        Arith.Commute(i - 1, shortLen);
      }
      Arith.MulMonotone(shortLen, i, numBlocks);
      Arith.Commute(i, shortLen);
      Arith.Commute(numBlocks, shortLen);
    }

    lemma BlockBounds(i: nat)
      requires Valid() && i < numBlocks
      ensures BlockStart(i + 1) == BlockStart(i) + BlockLen(i) <= dataLen
    {
      BlockStarts(i + 1);
      assert (i + 1) - 1 == i;
    }

    lemma BlocksCoverData()
      requires Valid()
      ensures BlockStart(numBlocks) == dataLen
    {
      BlockStarts(numBlocks);
    }
  }

  /** The parameters that addEccAndInterleave derives from the tables. */
  function LayoutOf(ver: Version, ecl: Ecc): (l: Layout)
    ensures l.Valid() && l.raw == RawCodewords(ver) && l.dataLen == NumDataCodewords(ver, ecl)
  {
    EveryEntrySplits(ver, ecl);
    LayoutIsValid(NumBlocks(ecl, ver), EccPerBlock(ecl, ver), RawCodewords(ver));
    LayoutFor(NumBlocks(ecl, ver), EccPerBlock(ecl, ver), RawCodewords(ver))
  }

  function LayoutFor(numBlocks: int, eccLen: int, raw: int): Layout
    requires Splits(raw, numBlocks, eccLen)
  {
    Layout(numBlocks, eccLen, raw, raw - eccLen * numBlocks, numBlocks - raw % numBlocks, raw / numBlocks - eccLen)
  }

  lemma LayoutIsValid(numBlocks: int, eccLen: int, raw: int)
    requires Splits(raw, numBlocks, eccLen)
    ensures LayoutFor(numBlocks, eccLen, raw).Valid()
  {
    var l := LayoutFor(numBlocks, eccLen, raw);
    Arith.DivideAtLeast(raw, numBlocks, eccLen + 1);
    Arith.Distribute(numBlocks, raw / numBlocks, -eccLen);
    Arith.MulMonotone(numBlocks, 1, l.shortLen);
    Arith.MulMonotone(eccLen, 1, numBlocks);
    Arith.Commute(numBlocks, eccLen);
  }

  /** With its error correction a block has one of two lengths that differ by one, the shorter blocks first, and all
      blocks together fill the symbol. */
  lemma BlockLengths(ver: Version, ecl: Ecc, i: nat)
    requires i < NumBlocks(ecl, ver)
    ensures var l, n, raw := LayoutOf(ver, ecl), NumBlocks(ecl, ver), RawCodewords(ver);
            && l.numBlocks == n && l.eccLen == EccPerBlock(ecl, ver)
            && l.BlockLen(i) + l.eccLen == raw / n + (if i + raw % n < n then 0 else 1)
  {
    hide RawCodewords, NumBlocks, EccPerBlock;
    EveryEntrySplits(ver, ecl);
  }

  /** No block is longer than the order of the field allows. */
  lemma BlocksAreShort(ver: Version, ecl: Ecc, i: nat)
    ensures LayoutOf(ver, ecl).BlockLen(i) + LayoutOf(ver, ecl).eccLen <= 255
  {
    hide RawCodewords, NumBlocks, EccPerBlock;
    EveryEntrySplits(ver, ecl);
    Arith.DivideAtMost(RawCodewords(ver), NumBlocks(ecl, ver), 254);
  }

  // ---- What interleaving produces

  /** Block i of the data. */
  function Block(data: seq<byte>, l: Layout, i: nat): (b: seq<byte>)
    requires l.Valid() && |data| >= l.dataLen && i < l.numBlocks
    ensures |b| == l.BlockLen(i)
  {
    l.BlockBounds(i);
    data[l.BlockStart(i)..l.BlockStart(i + 1)]
  }

  function EccOfBlock(data: seq<byte>, l: Layout, i: nat): (e: seq<byte>)
    requires l.Valid() && |data| >= l.dataLen && i < l.numBlocks
    ensures |e| == l.eccLen
  {
    Remainder(Block(data, l, i), RootProduct(l.eccLen)[1..])
  }

  /** The byte that belongs at position k. */
  function ByteAt(data: seq<byte>, l: Layout, k: nat): byte
    requires l.Valid() && |data| >= l.dataLen && k < l.raw
  {
    l.PlaceHasByte(k);
    if k < l.dataLen then Block(data, l, l.BlockOf(k))[l.RowOf(k)]
    else EccOfBlock(data, l, l.BlockOf(k))[l.RowOf(k)]
  }

  function Interleaved(data: seq<byte>, l: Layout): (r: seq<byte>)
    requires l.Valid() && |data| >= l.dataLen
    ensures |r| == l.raw
    ensures forall k | 0 <= k < l.raw :: r[k] == ByteAt(data, l, k)
  {
    seq(l.raw, k requires 0 <= k < l.raw => ByteAt(data, l, k))
  }

  lemma ByteOfBlock(data: seq<byte>, l: Layout, k: nat)
    requires l.Valid() && |data| >= l.dataLen && k < l.raw
    ensures k < l.dataLen ==>
              l.RowOf(k) < l.BlockLen(l.BlockOf(k)) && ByteAt(data, l, k) == Block(data, l, l.BlockOf(k))[l.RowOf(k)]
    ensures k >= l.dataLen ==>
              l.RowOf(k) < l.eccLen && ByteAt(data, l, k) == EccOfBlock(data, l, l.BlockOf(k))[l.RowOf(k)]
  {
    l.PlaceHasByte(k);
  }

  lemma BlockIsSlice(data: seq<byte>, l: Layout, i: nat)
    requires l.Valid() && |data| >= l.dataLen && i < l.numBlocks
    ensures l.BlockStart(i) + l.BlockLen(i) <= l.dataLen
    ensures Block(data, l, i) == data[..l.dataLen][l.BlockStart(i)..l.BlockStart(i) + l.BlockLen(i)]
  {
    l.BlockBounds(i);
    SliceOfPrefix(data, l.dataLen, l.BlockStart(i), l.BlockStart(i + 1));
  }

  lemma SliceOfPrefix(s: seq<byte>, n: nat, a: nat, b: nat)
    requires a <= b <= n <= |s|
    ensures s[a..b] == s[..n][a..b]
  {
  }

  // ---- Reading it back

  function ReadBlock(r: seq<byte>, l: Layout, i: nat): (b: seq<byte>)
    requires l.Valid() && |r| == l.raw && i < l.numBlocks
    ensures |b| == l.BlockLen(i)
  {
    seq(l.BlockLen(i), j requires 0 <= j < l.BlockLen(i) => (l.DataAtPlace(i, j); r[l.DataAt(i, j)]))
  }

  function ReadEcc(r: seq<byte>, l: Layout, i: nat): (e: seq<byte>)
    requires l.Valid() && |r| == l.raw && i < l.numBlocks
    ensures |e| == l.eccLen
  {
    seq(l.eccLen, j requires 0 <= j < l.eccLen => (l.EccAtPlace(i, j); r[l.EccAt(i, j)]))
  }

  /** The first n blocks of r, one after the other. */
  function Deinterleaved(r: seq<byte>, l: Layout, n: nat): seq<byte>
    requires l.Valid() && |r| == l.raw && n <= l.numBlocks
  {
    if n == 0 then [] else Deinterleaved(r, l, n - 1) + ReadBlock(r, l, n - 1)
  }

  /** De-interleaving recovers every block together with its error correction: each is a codeword. */
  lemma BlocksAreCodewords(data: seq<byte>, l: Layout, i: nat)
    requires l.Valid() && |data| >= l.dataLen && i < l.numBlocks
    ensures var r := Interleaved(data, l);
            ReadBlock(r, l, i) == Block(data, l, i) &&
            ReadBlock(r, l, i) + ReadEcc(r, l, i) == Codeword(Block(data, l, i), l.eccLen)
  {
    var r := Interleaved(data, l);
    forall j | 0 <= j < l.BlockLen(i)
      ensures ReadBlock(r, l, i)[j] == Block(data, l, i)[j]
    {
      l.DataAtPlace(i, j);
    }
    forall j | 0 <= j < l.eccLen
      ensures ReadEcc(r, l, i)[j] == EccOfBlock(data, l, i)[j]
    {
      l.EccAtPlace(i, j);
    }
  }

  lemma StartOfData(l: Layout)
    requires l.Valid()
    ensures l.BlockStart(0) == 0
  {
  }

  lemma {:induction false} DeinterleavesPrefix(data: seq<byte>, l: Layout, n: nat)
    requires l.Valid() && |data| >= l.dataLen && n <= l.numBlocks
    ensures l.BlockStart(n) <= |data|
    ensures Deinterleaved(Interleaved(data, l), l, n) == data[..l.BlockStart(n)]
  {
    hide Interleaved, ReadBlock, ReadEcc, Layout.BlockLen, Layout.BlockStart, Codeword;
    l.BlockStarts(n);
    StartOfData(l);
    if n > 0 {
      DeinterleavesPrefix(data, l, n - 1);
      BlocksAreCodewords(data, l, n - 1);
      l.BlockStarts(n - 1);
      l.BlockBounds(n - 1);
      assert data[..l.BlockStart(n)] == data[..l.BlockStart(n - 1)] + data[l.BlockStart(n - 1)..l.BlockStart(n)];
    }
  }

  /** Reading the blocks back in order gives the data codewords. */
  lemma DeinterleaveRoundTrip(data: seq<byte>, l: Layout)
    requires l.Valid() && |data| >= l.dataLen
    ensures Deinterleaved(Interleaved(data, l), l, l.numBlocks) == data[..l.dataLen]
  {
    DeinterleavesPrefix(data, l, l.numBlocks);
    l.BlocksCoverData();
  }

  // ---- The algorithm

  /** addEccAndInterleave. The bytes of data from dataLen on are its work area. */
  method AddEccAndInterleave(data: array<byte>, ver: Version, ecl: Ecc, result: array<byte>)
    requires data != result
    requires data.Length >= LayoutOf(ver, ecl).raw && result.Length >= LayoutOf(ver, ecl).raw
    modifies data, result
    ensures result[..LayoutOf(ver, ecl).raw] == Interleaved(old(data[..]), LayoutOf(ver, ecl))
  {
    var l := LayoutOf(ver, ecl);
    InterleaveBlocks(data, l, result);
  }

  method InterleaveBlocks(data: array<byte>, l: Layout, result: array<byte>)
    requires l.Valid() && data != result
    requires data.Length >= l.raw && result.Length >= l.raw
    modifies data, result
    ensures result[..l.raw] == Interleaved(old(data[..]), l)
  {
    assert l.BlockStart(0) == 0;
    hide Remainder, RootProduct, ByteAt, EccOfBlock, Layout.BlockStart, Layout.BlockOf, Layout.RowOf;
    ghost var original := data[..];
    ghost var want := Interleaved(original, l);
    var rsdiv := new byte[DEGREE_MAX];
    ComputeDivisor(l.eccLen, rsdiv);
    var dat := 0;
    for i := 0 to l.numBlocks
      invariant dat == l.BlockStart(i)
      invariant rsdiv[..l.eccLen] == RootProduct(l.eccLen)[1..]
      invariant data[..l.dataLen] == original[..l.dataLen]
      invariant forall k | 0 <= k < l.raw && l.BlockOf(k) < i :: result[k] == want[k]
    {
      l.BlockBounds(i);
      var datLen := l.BlockLen(i);
      InterleaveOneBlock(data, dat, datLen, l, i, rsdiv, result, original);
      dat := dat + datLen;
    }
  }

  /** The body of the loop over the blocks. */
  method InterleaveOneBlock(data: array<byte>, dat: nat, datLen: nat, l: Layout, i: nat, rsdiv: array<byte>,
                            result: array<byte>, ghost original: seq<byte>)
    requires l.Valid() && i < l.numBlocks && dat == l.BlockStart(i) && datLen == l.BlockLen(i)
    requires data != result && rsdiv != result && rsdiv != data
    requires data.Length >= l.raw && result.Length >= l.raw && rsdiv.Length >= l.eccLen
    requires |original| >= l.raw && data[..l.dataLen] == original[..l.dataLen]
    requires rsdiv[..l.eccLen] == RootProduct(l.eccLen)[1..]
    modifies data, result
    ensures data[..l.dataLen] == original[..l.dataLen]
    ensures forall k | 0 <= k < l.raw && l.BlockOf(k) == i :: result[k] == ByteAt(original, l, k)
    ensures forall k | 0 <= k < l.raw && l.BlockOf(k) != i :: result[k] == old(result[k])
  {
    hide Remainder, RootProduct, ByteAt, Block, EccOfBlock, Interleaved, Layout.BlockStart, Layout.BlockOf,
      Layout.RowOf, Layout.BlockLen;
    BlockInPlace(data[..], original, l, i);
    EccOfBlockIs(original, l, i);
    ComputeRemainder(data, dat, datLen, rsdiv, l.eccLen, data, l.dataLen);
    assert data[..l.dataLen] == original[..l.dataLen];
    BlockInPlace(data[..], original, l, i);
    ghost var want := Interleaved(original, l);
    WantedBytes(data[..], dat, datLen, l, i, original);
    CopyData(data, dat, l, i, result, want);
    CopyEcc(data, l, i, result, want);
  }

  /** Data that begins with the original bytes holds each block in its place. */
  lemma BlockInPlace(data: seq<byte>, original: seq<byte>, l: Layout, i: nat)
    requires l.Valid() && i < l.numBlocks && |data| >= l.raw && |original| >= l.raw
    requires data[..l.dataLen] == original[..l.dataLen]
    ensures l.BlockStart(i) + l.BlockLen(i) <= l.dataLen
    ensures data[l.BlockStart(i)..l.BlockStart(i) + l.BlockLen(i)] == Block(original, l, i)
  {
    hide Block, Layout.BlockStart, Layout.BlockLen;
    BlockIsSlice(original, l, i);
    SliceOfPrefix(data, l.dataLen, l.BlockStart(i), l.BlockStart(i) + l.BlockLen(i));
  }

  lemma EccOfBlockIs(original: seq<byte>, l: Layout, i: nat)
    requires l.Valid() && i < l.numBlocks && |original| >= l.raw
    ensures EccOfBlock(original, l, i) == Remainder(Block(original, l, i), RootProduct(l.eccLen)[1..])
  {
  }

  lemma WantedBytes(data: seq<byte>, dat: nat, datLen: nat, l: Layout, i: nat, original: seq<byte>)
    requires l.Valid() && i < l.numBlocks && datLen == l.BlockLen(i)
    requires |data| >= l.raw && |original| >= l.raw && dat + datLen <= |data|
    requires data[dat..dat + datLen] == Block(original, l, i)
    requires data[l.dataLen..l.dataLen + l.eccLen] == EccOfBlock(original, l, i)
    ensures forall k | 0 <= k < l.raw && l.BlockOf(k) == i ::
              && (k < l.dataLen ==> l.RowOf(k) < datLen && ByteAt(original, l, k) == data[dat + l.RowOf(k)])
              && (k >= l.dataLen ==> l.RowOf(k) < l.eccLen && ByteAt(original, l, k) == data[l.dataLen + l.RowOf(k)])
  {
    hide EccOfBlock, Block, ByteAt, Layout.BlockOf, Layout.RowOf;
    forall k | 0 <= k < l.raw && l.BlockOf(k) == i
      ensures k < l.dataLen ==> l.RowOf(k) < datLen && ByteAt(original, l, k) == data[dat + l.RowOf(k)]
      ensures k >= l.dataLen ==> l.RowOf(k) < l.eccLen && ByteAt(original, l, k) == data[l.dataLen + l.RowOf(k)]
    {
      ByteOfBlock(original, l, k);
    }
  }

  /** The first copying loop: the bytes of block i. */
  method CopyData(data: array<byte>, dat: nat, l: Layout, i: nat, result: array<byte>, ghost want: seq<byte>)
    requires l.Valid() && data != result && i < l.numBlocks
    requires dat + l.BlockLen(i) <= data.Length && l.raw <= result.Length && |want| == l.raw
    requires forall k | 0 <= k < l.dataLen && l.BlockOf(k) == i ::
               (l.PlaceHasByte(k); want[k] == data[dat + l.RowOf(k)])
    modifies result
    ensures forall k | 0 <= k < l.raw && k < l.dataLen && l.BlockOf(k) == i :: result[k] == want[k]
    ensures forall k | 0 <= k < l.raw && l.BlockOf(k) != i :: result[k] == old(result[k])
  {
    hide Layout.BlockOf, Layout.RowOf;
    var j, k := 0, i;
    while j < l.BlockLen(i)
      invariant 0 <= j <= l.BlockLen(i)
      invariant j <= l.shortLen ==> k == j * l.numBlocks + i
      invariant forall p | 0 <= p < l.dataLen && l.BlockOf(p) == i && l.RowOf(p) < j :: result[p] == want[p]
      invariant forall p | 0 <= p < l.raw && l.BlockOf(p) != i :: result[p] == old(result[p])
    {
      l.DataAtPlace(i, j);
      if j == l.shortLen {
        k := k - l.numShort;
      }
      assert k == l.DataAt(i, j);
      result[k] := data[dat + j];
      forall p | 0 <= p < l.dataLen && l.BlockOf(p) == i && l.RowOf(p) == j
        ensures p == k
      {
        l.PlaceHasByte(p);
      }
      Arith.MulSuccessor(l.numBlocks, j);
      j, k := j + 1, k + l.numBlocks;
    }
    forall p | 0 <= p < l.dataLen && l.BlockOf(p) == i
      ensures l.RowOf(p) < j
    {
      l.PlaceHasByte(p);
    }
  }

  /** The second copying loop: the error correction of block i, from the work area. */
  method CopyEcc(data: array<byte>, l: Layout, i: nat, result: array<byte>, ghost want: seq<byte>)
    requires l.Valid() && data != result && i < l.numBlocks
    requires l.dataLen + l.eccLen <= data.Length && l.raw <= result.Length && |want| == l.raw
    requires forall k | l.dataLen <= k < l.raw && l.BlockOf(k) == i ::
               (l.PlaceHasByte(k); want[k] == data[l.dataLen + l.RowOf(k)])
    modifies result
    ensures forall k | l.dataLen <= k < l.raw && l.BlockOf(k) == i :: result[k] == want[k]
    ensures forall k | 0 <= k < l.raw && (k < l.dataLen || l.BlockOf(k) != i) :: result[k] == old(result[k])
  {
    var j, k := 0, l.dataLen + i;
    while j < l.eccLen
      invariant 0 <= j <= l.eccLen
      invariant k == l.EccAt(i, j)
      invariant forall p | l.dataLen <= p < l.raw && l.BlockOf(p) == i && l.RowOf(p) < j :: result[p] == want[p]
      invariant forall p | 0 <= p < l.raw && (p < l.dataLen || l.BlockOf(p) != i) :: result[p] == old(result[p])
    {
      l.EccAtPlace(i, j);
      result[k] := data[l.dataLen + j];
      forall p | l.dataLen <= p < l.raw && l.BlockOf(p) == i && l.RowOf(p) == j
        ensures p == k
      {
        l.PlaceHasByte(p);
      }
      Arith.MulSuccessor(l.numBlocks, j);
      Arith.Commute(l.numBlocks, j);
      Arith.Commute(l.numBlocks, j + 1);
      j, k := j + 1, k + l.numBlocks;
    }
    forall p | l.dataLen <= p < l.raw && l.BlockOf(p) == i
      ensures l.RowOf(p) < j
    {
      l.PlaceHasByte(p);
    }
  }
}
