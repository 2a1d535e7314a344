/**
 Encoding segments into a QR Code: version and error correction level, data bits, codewords, placement and mask.
 */
module QrEncoder {
  import opened Bits
  import opened QrTables
  import opened QrGrid
  import opened QrFunctionModules
  import opened QrCapacity
  import opened QrPlacement
  import opened QrPatterns
  import opened QrMask
  import opened QrFormat
  import opened QrPenalty
  import opened QrSegments
  import opened QrStream
  import opened QrSymbol
  import opened Interleave

  const LONG_MAX := 0x7FFF_FFFF
  const MASK_AUTO := -1

  // ---- Version and level

  /** The smallest version of the range in which the segments fit. */
  predicate IsSmallestVersion(segs: seq<Segment>, ecl: Ecc, minVersion: Version, maxVersion: Version, ver: Version) {
    && minVersion <= ver <= maxVersion && Fits(segs, ver, ecl)
    && forall v: Version | minVersion <= v < ver :: !Fits(segs, v, ecl)
  }

  /** The requested level, or with boosting the highest level at which the segments still fit. */
  predicate IsFinalLevel(segs: seq<Segment>, ver: Version, request: Ecc, boostEcl: bool, ecl: Ecc) {
    && Fits(segs, ver, ecl) && ecl >= request
    && (!boostEcl ==> ecl == request)
    && (boostEcl ==> forall e: Ecc | e > ecl :: !Fits(segs, ver, e))
  }

  method FindVersion(segs: seq<Segment>, ecl: Ecc, minVersion: Version, maxVersion: Version)
    returns (found: bool, version: Version, dataUsedBits: int)
    requires minVersion <= maxVersion
    ensures found <==> exists v: Version :: minVersion <= v <= maxVersion && Fits(segs, v, ecl)
    ensures found ==>
              IsSmallestVersion(segs, ecl, minVersion, maxVersion, version) && dataUsedBits == TotalBits(segs, version)
  {
    hide TotalBits, NumDataCodewords;
    version := minVersion;
    while true
      invariant minVersion <= version <= maxVersion
      invariant forall v: Version | minVersion <= v < version :: !Fits(segs, v, ecl)
      decreases maxVersion - version
    {
      var dataCapacityBits := NumDataCodewords(version, ecl) * 8;
      dataUsedBits := GetTotalBits(segs, version);
      if dataUsedBits != LENGTH_OVERFLOW && dataUsedBits <= dataCapacityBits {
        assert Fits(segs, version, ecl);
        return true, version, dataUsedBits;
      }
      assert !Fits(segs, version, ecl);
      if version >= maxVersion {
        return false, version, dataUsedBits;
      }
      version := version + 1;
    }
  }

  method BoostLevel(segs: seq<Segment>, version: Version, request: Ecc, boostEcl: bool, dataUsedBits: int)
    returns (ecl: Ecc)
    requires Fits(segs, version, request) && dataUsedBits == TotalBits(segs, version)
    ensures IsFinalLevel(segs, version, request, boostEcl, ecl)
  {
    hide TotalBits, NumDataCodewords;
    ecl := request;
    for i := 1 to 4
      invariant Fits(segs, version, ecl)
      invariant ecl >= request || (ecl < i <= request)
      invariant !boostEcl ==> ecl == request
      invariant boostEcl ==> forall e: Ecc | ecl < e < i :: !Fits(segs, version, e)
    {
      if boostEcl && dataUsedBits <= NumDataCodewords(version, i) * 8 {
        ecl := i;
      }
    }
  }

  // ---- Codewords

  lemma BuffersSuffice(ver: Version, maxVersion: Version)
    requires ver <= maxVersion
    ensures RawCodewords(ver) <= BufferLen(SizeOf(ver)) <= BufferLen(SizeOf(maxVersion))
  {
    hide NumRawDataModules;
    DataModulesCount(ver);
    forall p | p in DataModules(ver)
      ensures InBounds(SizeOf(ver), p.0, p.1)
    {
      assert p in WholeGrid(SizeOf(ver));
    }
    WithinGridCount(DataModules(ver), SizeOf(ver));
    SquareMonotone(SizeOf(ver), SizeOf(maxVersion));
  }

  lemma SquareMonotone(a: nat, b: nat)
    requires a <= b
    ensures a * a <= b * b
  {
    assert a * a <= a * b <= b * b;
  }

  /** Builds the data bits in qrcode, and the interleaved codewords in tempBuffer. */
  method BuildCodewords(segs: seq<Segment>, version: Version, ecl: Ecc, tempBuffer: array<byte>, qrcode: array<byte>)
    requires ValidSegments(segs) && Fits(segs, version, ecl) && tempBuffer != qrcode
    requires tempBuffer.Length >= BufferLen(SizeOf(version)) && qrcode.Length >= BufferLen(SizeOf(version))
    modifies tempBuffer, qrcode
    ensures RawCodewords(version) <= tempBuffer.Length
    ensures tempBuffer[..RawCodewords(version)] == Codewords(segs, version, ecl)
  {
    hide Contains, Interleaved, LayoutOf, BytesOf, Completed, SegmentsBits, NumDataCodewords, BufferLen,
      NumRawDataModules, CountFits;
    BuffersSuffice(version, version);
    var bufferLen := BufferLen(SizeOf(version));
    ClearBuffer(qrcode, bufferLen);
    var bitLen := AppendSegments(segs, version, qrcode, bufferLen);
    AppendPadding(qrcode, bitLen, NumDataCodewords(version, ecl) * 8, SegmentsBits(segs, version), bufferLen);
    ContainedBytes(qrcode[..], Stream(segs, version, ecl), bufferLen);
    InterleavedPrefix(qrcode[..], BytesOf(Stream(segs, version, ecl)), LayoutOf(version, ecl));
    AddEccAndInterleave(qrcode, version, ecl, tempBuffer);
  }

  lemma ContainedBytes(buffer: seq<byte>, bits: seq<bool>, bytes: nat)
    requires Contains(buffer, bits, bytes) && |bits| % 8 == 0
    ensures |bits| / 8 <= |buffer| && buffer[..|bits| / 8] == BytesOf(bits)
  {
    hide BufferBit;
    assert BufferBits(buffer, |bits|) == bits;
    BytesOfBufferBits(buffer, |bits| / 8);
  }

  /** Interleaving looks at the data codewords only. */
  lemma InterleavedPrefix(a: seq<byte>, b: seq<byte>, l: Layout)
    requires l.Valid() && |a| >= l.dataLen && |b| >= l.dataLen && a[..l.dataLen] == b[..l.dataLen]
    ensures Interleaved(a, l) == Interleaved(b, l)
  {
    hide Layout.BlockOf, Layout.RowOf, ByteAt, Block, EccOfBlock;
    forall k | 0 <= k < l.raw
      ensures ByteAt(a, l, k) == ByteAt(b, l, k)
    {
      ByteOfBlock(a, l, k);
      ByteOfBlock(b, l, k);
      SameBlocks(a, b, l, l.BlockOf(k));
    }
  }

  lemma SameBlocks(a: seq<byte>, b: seq<byte>, l: Layout, i: nat)
    requires l.Valid() && |a| >= l.dataLen && |b| >= l.dataLen && a[..l.dataLen] == b[..l.dataLen] && i < l.numBlocks
    ensures Block(a, l, i) == Block(b, l, i) && EccOfBlock(a, l, i) == EccOfBlock(b, l, i)
  {
    hide ReedSolomon.Remainder, Layout.BlockStart, Block;
    BlockIsSlice(a, l, i);
    BlockIsSlice(b, l, i);
  }

  // ---- Drawing

  /** Draws the codewords that tempBuffer holds and every pattern, then the function modules into tempBuffer. */
  method DrawUnmasked(version: Version, ghost codewords: seq<byte>, tempBuffer: array<byte>, qrcode: array<byte>)
    requires tempBuffer != qrcode && |codewords| == RawCodewords(version)
    requires |codewords| <= tempBuffer.Length && tempBuffer[..|codewords|] == codewords
    requires tempBuffer.Length >= BufferLen(SizeOf(version)) && qrcode.Length >= BufferLen(SizeOf(version))
    modifies tempBuffer, qrcode
    ensures IsGrid(qrcode[..]) && qrcode[0] == SizeOf(version) && Dark(qrcode[..]) == Unmasked(version, codewords)
    ensures IsGrid(tempBuffer[..]) && tempBuffer[0] == SizeOf(version)
            && Dark(tempBuffer[..]) == FunctionModules(version)
  {
    hide Dark, IsGrid, BufferLen, FunctionModules, LightDrawn, Placed, DataOrder, NumRawDataModules;
    CodewordsFit(version);
    InitializeFunctionModules(version, qrcode);
    var raw := RawCodewords(version);
    PrefixBits(tempBuffer[..], codewords);
    DrawCodewords(tempBuffer, raw, qrcode, version);
    DrawLightFunctionModules(qrcode, version);
    InitializeFunctionModules(version, tempBuffer);
  }

  lemma PrefixBits(buffer: seq<byte>, prefix: seq<byte>)
    requires |prefix| <= |buffer| && buffer[..|prefix|] == prefix
    ensures BufferBits(buffer, 8 * |prefix|) == BufferBits(prefix, 8 * |prefix|)
  {
    hide Bit;
    forall i | 0 <= i < 8 * |prefix|
      ensures BufferBit(buffer, i) == BufferBit(prefix, i)
    {
      assert buffer[..|prefix|][i / 8] == buffer[i / 8];
    }
  }

  // ---- Choosing the mask

  ghost function PenaltyOf(dark: set<Point>, ver: Version, ecl: Ecc, mask: Mask): int {
    PenaltyScore(WithMask(dark, ver, ecl, mask), SizeOf(ver))
  }

  /** The first of the eight masks with the least penalty. */
  ghost predicate IsBestMask(dark: set<Point>, ver: Version, ecl: Ecc, mask: Mask) {
    && (forall m: Mask :: PenaltyOf(dark, ver, ecl, mask) <= PenaltyOf(dark, ver, ecl, m))
    && (forall m: Mask | m < mask :: PenaltyOf(dark, ver, ecl, mask) < PenaltyOf(dark, ver, ecl, m))
  }

  /** The grids agree outside the format information. */
  ghost predicate SameButFormat(a: set<Point>, b: set<Point>, size: int) {
    a - FormatModules(size, 31) == b - FormatModules(size, 31)
  }

  /** Format information drawn earlier makes no difference. */
  lemma WithMaskIgnoresFormat(a: set<Point>, b: set<Point>, ver: Version, ecl: Ecc, mask: Mask)
    requires SameButFormat(a, b, SizeOf(ver))
    ensures WithMask(a, ver, ecl, mask) == WithMask(b, ver, ecl, mask)
  {
    hide FunctionModules, FormatModules, FormatDark, FormatBits, Inverts;
    var f, size := FunctionModules(ver), SizeOf(ver);
    SameOutside(a, b, FormatModules(size, 31));
    forall p | p !in FormatModules(size, 31)
      ensures p in Masked(a, f, mask, size) <==> p in Masked(b, f, mask, size)
    {
    }
  }

  lemma SameOutside(a: set<Point>, b: set<Point>, s: set<Point>)
    requires a - s == b - s
    ensures forall p | p !in s :: p in a <==> p in b
  {
    forall p | p !in s
      ensures p in a <==> p in b
    {
      assert p in a - s <==> p in b - s;
    }
  }

  /** Applying the mask again after drawing the format information restores everything else. */
  lemma IterationRestores(dark: set<Point>, ver: Version, ecl: Ecc, mask: Mask)
    ensures SameButFormat(Masked(WithMask(dark, ver, ecl, mask), FunctionModules(ver), mask, SizeOf(ver)), dark,
                          SizeOf(ver))
  {
    hide FunctionModules, FormatBits, FormatColor, FormatPos, Inverts;
    var size, f := SizeOf(ver), FunctionModules(ver);
    assert FormatDark(size, FormatBits(ecl, mask), 31) <= FormatModules(size, 31);
    hide FormatDark, FormatModules;
    forall p | p !in FormatModules(size, 31)
      ensures p in Masked(WithMask(dark, ver, ecl, mask), f, mask, size) <==> p in dark
    {
    }
  }

  method ChooseMask(version: Version, ecl: Ecc, tempBuffer: array<byte>, qrcode: array<byte>) returns (mask: Mask)
    requires tempBuffer != qrcode && IsGrid(qrcode[..]) && IsGrid(tempBuffer[..])
    requires qrcode[0] == tempBuffer[0] == SizeOf(version) && Dark(tempBuffer[..]) == FunctionModules(version)
    modifies qrcode
    ensures IsGrid(qrcode[..]) && qrcode[0] == SizeOf(version)
    ensures SameButFormat(Dark(qrcode[..]), old(Dark(qrcode[..])), SizeOf(version))
    ensures IsBestMask(old(Dark(qrcode[..])), version, ecl, mask)
  {
    hide Dark, BufferLen, FunctionModules, Masked, FormatDrawn, PenaltyScore, FormatBits, SameButFormat;
    ghost var before := Dark(qrcode[..]);
    mask := 0;
    var minPenalty := LONG_MAX;
    SameButFormatIsReflexive(before, SizeOf(version));
    for i := 0 to 8
      invariant IsGrid(qrcode[..]) && qrcode[0] == SizeOf(version)
      invariant SameButFormat(Dark(qrcode[..]), before, SizeOf(version))
      invariant i > 0 ==> mask < i && minPenalty == PenaltyOf(before, version, ecl, mask)
      invariant i == 0 ==> minPenalty == LONG_MAX
      invariant forall m: Mask | m < i :: minPenalty <= PenaltyOf(before, version, ecl, m)
      invariant forall m: Mask | i > 0 && m < mask :: minPenalty < PenaltyOf(before, version, ecl, m)
    {
      WithMaskIgnoresFormat(Dark(qrcode[..]), before, version, ecl, i);
      IterationRestores(Dark(qrcode[..]), version, ecl, i);
      ghost var masked := WithMask(Dark(qrcode[..]), version, ecl, i);
      SameButFormatIsTransitive(Masked(masked, FunctionModules(version), i, SizeOf(version)), Dark(qrcode[..]), before,
                                SizeOf(version));
      ApplyMask(tempBuffer, qrcode, i);
      DrawFormatBits(ecl, i, qrcode);
      var penalty := GetPenaltyScore(qrcode);
      if penalty < minPenalty {
        mask := i;
        minPenalty := penalty;
      }
      ApplyMask(tempBuffer, qrcode, i);
    }
  }

  lemma SameButFormatIsReflexive(a: set<Point>, size: int)
    ensures SameButFormat(a, a, size)
  {
  }

  lemma SameButFormatIsTransitive(a: set<Point>, b: set<Point>, c: set<Point>, size: int)
    requires SameButFormat(a, b, size) && SameButFormat(b, c, size)
    ensures SameButFormat(a, c, size)
  {
  }

  // ---- The whole

  /** The grid that encoding the segments must produce. */
  ghost predicate IsEncoding(segs: seq<Segment>, request: Ecc, minVersion: Version, maxVersion: Version, mask0: int,
                             boostEcl: bool, dark: set<Point>, ver: Version, ecl: Ecc, mask: Mask)
    requires ValidSegments(segs)
  {
    && IsSmallestVersion(segs, request, minVersion, maxVersion, ver)
    && IsFinalLevel(segs, ver, request, boostEcl, ecl)
    && (if mask0 == MASK_AUTO then IsBestMask(Unmasked(ver, Codewords(segs, ver, ecl)), ver, ecl, mask)
        else mask == mask0)
    && dark == Symbol(segs, ver, ecl, mask)
  }

  /** What such a grid is: the symbol of the one version, level and mask for which it holds that no smaller version of
      the range fits the segments; without boosting the level is the requested one, and otherwise the highest that fits;
      and -1 chooses, of the masks with the least penalty, the first. */
  lemma EncodingExactly(segs: seq<Segment>, request: Ecc, minVersion: Version, maxVersion: Version, mask0: int,
                        boostEcl: bool, dark: set<Point>, ver: Version, ecl: Ecc, mask: Mask, v: Version, e: Ecc,
                          m: Mask)
    requires ValidSegments(segs)
    requires IsEncoding(segs, request, minVersion, maxVersion, mask0, boostEcl, dark, ver, ecl, mask)
    ensures minVersion <= ver <= maxVersion && Fits(segs, ver, request) && Fits(segs, ver, ecl)
    ensures minVersion <= v < ver ==> !Fits(segs, v, request)
    ensures if boostEcl then ecl >= request && (e > ecl ==> !Fits(segs, ver, e)) else ecl == request
    ensures dark == Symbol(segs, ver, ecl, mask)
    ensures mask0 != -1 ==> mask == mask0
    ensures mask0 == -1 ==>
              var chosen, other := PenaltyScore(dark, SizeOf(ver)),
                                   PenaltyScore(Symbol(segs, ver, ecl, m), SizeOf(ver));
              chosen <= other && (m < mask ==> chosen < other)
  {
    hide Fits, PenaltyScore, WithMask, Unmasked, Codewords;
    var unmasked := Unmasked(ver, Codewords(segs, ver, ecl));
    assert PenaltyOf(unmasked, ver, ecl, m) == PenaltyScore(Symbol(segs, ver, ecl, m), SizeOf(ver));
    assert PenaltyOf(unmasked, ver, ecl, mask) == PenaltyScore(Symbol(segs, ver, ecl, mask), SizeOf(ver));
  }

  /** qrcodegen_encodeSegmentsAdvanced. */
  method EncodeSegmentsAdvanced(segs: seq<Segment>, request: Ecc, minVersion: Version, maxVersion: Version, mask0: int,
                                boostEcl: bool, tempBuffer: array<byte>, qrcode: array<byte>)
    returns (ok: bool, ghost ver: Version, ghost level: Ecc, ghost finalMask: Mask)
    requires ValidSegments(segs) && minVersion <= maxVersion && -1 <= mask0 <= 7 && tempBuffer != qrcode
    requires tempBuffer.Length >= BufferLen(SizeOf(maxVersion)) && qrcode.Length >= BufferLen(SizeOf(maxVersion))
    modifies tempBuffer, qrcode
    ensures ok <==> exists v: Version :: minVersion <= v <= maxVersion && Fits(segs, v, request)
    ensures !ok ==> qrcode[..] == old(qrcode[..])[0 := 0] && tempBuffer[..] == old(tempBuffer[..])
    ensures ok ==> IsGrid(qrcode[..]) && qrcode[0] == SizeOf(ver)
    ensures ok ==> IsEncoding(segs, request, minVersion, maxVersion, mask0, boostEcl, Dark(qrcode[..]), ver, level,
                              finalMask)
  {
    hide Fits, Dark, IsGrid, BufferLen, Codewords, Unmasked, IsBestMask, FormatDrawn, Masked, SameButFormat,
      FunctionModules, RawCodewords, FormatBits;
    ver, level, finalMask := 1, 0, 0;
    assert BufferLen(SizeOf(maxVersion)) >= 1 by {
      BuffersSuffice(maxVersion, maxVersion);
    }
    var found, version, dataUsedBits := FindVersion(segs, request, minVersion, maxVersion);
    if !found {
      qrcode[0] := 0;
      return false, ver, level, finalMask;
    }
    BuffersSuffice(version, maxVersion);
    var ecl := BoostLevel(segs, version, request, boostEcl, dataUsedBits);
    BuildCodewords(segs, version, ecl, tempBuffer, qrcode);
    DrawUnmasked(version, Codewords(segs, version, ecl), tempBuffer, qrcode);
    ghost var unmasked := Dark(qrcode[..]);
    var mask := mask0;
    SameButFormatIsReflexive(unmasked, SizeOf(version));
    if mask == MASK_AUTO {
      mask := ChooseMask(version, ecl, tempBuffer, qrcode);
    }
    WithMaskIgnoresFormat(Dark(qrcode[..]), unmasked, version, ecl, mask);
    ApplyMask(tempBuffer, qrcode, mask);
    DrawFormatBits(ecl, mask, qrcode);
    return true, version, ecl, mask;
  }
}
