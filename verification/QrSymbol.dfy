/**
 What a finished QR Code looks like, how it is read, and that reading gives back the encoded segments.
 */
module QrSymbol {
  import opened Bits
  import opened BlockDistance
  import opened QrTables
  import opened QrGrid
  import opened QrFunctionModules
  import opened QrCapacity
  import opened QrPlacement
  import opened QrPatterns
  import opened QrMask
  import opened QrFormat
  import opened QrSegments
  import opened QrStream
  import opened QrParse
  import opened Interleave
  import opened ReedSolomon

  // ---- The symbol

  /** The data codewords with their error correction, interleaved. */
  ghost function Codewords(segs: seq<Segment>, ver: Version, ecl: Ecc): (c: seq<byte>)
    requires ValidSegments(segs) && Fits(segs, ver, ecl)
    ensures |c| == RawCodewords(ver)
  {
    Interleaved(BytesOf(Stream(segs, ver, ecl)), LayoutOf(ver, ecl))
  }

  lemma CodewordsFit(ver: Version)
    ensures 8 * RawCodewords(ver) <= NumRawDataModules(ver) == |DataOrder(ver)|
  {
    DataOrderCoversDataModules(ver);
  }

  /** The grid with the codewords placed and every function module except the format information in its colour. */
  ghost function Unmasked(ver: Version, codewords: seq<byte>): set<Point>
    requires |codewords| == RawCodewords(ver)
  {
    CodewordsFit(ver);
    LightDrawn(FunctionModules(ver) + Placed(DataOrder(ver), BufferBits(codewords, 8 * |codewords|)), ver)
  }

  ghost function WithMask(dark: set<Point>, ver: Version, ecl: Ecc, mask: Mask): set<Point> {
    FormatDrawn(Masked(dark, FunctionModules(ver), mask, SizeOf(ver)), SizeOf(ver), FormatBits(ecl, mask), 31)
  }

  /** The QR Code of a version, a level and a mask. */
  ghost function Symbol(segs: seq<Segment>, ver: Version, ecl: Ecc, mask: Mask): set<Point>
    requires ValidSegments(segs) && Fits(segs, ver, ecl)
  {
    WithMask(Unmasked(ver, Codewords(segs, ver, ecl)), ver, ecl, mask)
  }

  // ---- Reading it

  function LevelOf(formatLevel: nat): Ecc
    requires formatLevel < 4
  {
    match formatLevel case 0 => 1 case 1 => 0 case 2 => 3 case 3 => 2
  }

  ghost function ReadFormatData(dark: set<Point>, size: int): (d: nat)
    ensures d < 32
  {
    FormatDataBound(FormatString(dark, size, false));
    Xor(ReadFormatBits(dark, size, false), 0x5412) / 1024
  }

  lemma FormatDataBound(b: seq<bool>)
    requires |b| == 15
    ensures Xor(ValueOf(b), 0x5412) < 32768
  {
    BitsOfValue(b);
    Powers();
    XorBound(ValueOf(b), 0x5412, 15);
  }

  ghost function ReadCodewords(dark: set<Point>, ver: Version, mask: Mask): (c: seq<byte>)
    ensures |c| == RawCodewords(ver)
  {
    CodewordsFit(ver);
    BytesOf(ReadBits(Masked(dark, FunctionModules(ver), mask, SizeOf(ver)), DataOrder(ver), 8 * RawCodewords(ver)))
  }

  ghost function DataBitsOf(codewords: seq<byte>, l: Layout): seq<bool>
    requires l.Valid() && |codewords| == l.raw
  {
    var data := Deinterleaved(codewords, l, l.numBlocks);
    BufferBits(data, 8 * |data|)
  }

  /** Takes level and mask from the format information, removes the mask, reads the codewords along the zigzag,
      undoes the interleaving and parses the data bits. */
  ghost function ReadSymbol(dark: set<Point>, ver: Version): seq<Parsed> {
    var format := ReadFormatData(dark, SizeOf(ver));
    Parse(DataBitsOf(ReadCodewords(dark, ver, format % 8), LayoutOf(ver, LevelOf(format / 8))), ver)
  }

  // ---- Round trip

  lemma LevelOfFormat(ecl: Ecc, mask: Mask)
    ensures LevelOf(FormatData(ecl, mask) / 8) == ecl && FormatData(ecl, mask) % 8 == mask
  {
  }

  lemma FormatReadsBackIn(dark: set<Point>, ver: Version, ecl: Ecc, mask: Mask)
    ensures ReadFormatData(WithMask(dark, ver, ecl, mask), SizeOf(ver)) == FormatData(ecl, mask)
  {
    hide FormatDrawn, ReadFormatBits, FormatBits, FormatData, Masked, FunctionModules;
    FormatReadsBack(Masked(dark, FunctionModules(ver), mask, SizeOf(ver)), SizeOf(ver), ecl, mask, false);
  }

  /** Drawing the format information changes function modules only. */
  lemma FormatKeepsDataModules(dark: set<Point>, ver: Version, bits: nat)
    ensures FormatDrawn(dark, SizeOf(ver), bits, 31) - FunctionModules(ver) == dark - FunctionModules(ver)
  {
    hide FunctionModules, FormatColor, FormatPos;
    FormatModulesAreFunction(ver);
    assert FormatDark(SizeOf(ver), bits, 31) <= FormatModules(SizeOf(ver), 31);
  }

  lemma MaskIsPointwise(a: set<Point>, b: set<Point>, functionModules: set<Point>, mask: Mask, size: int)
    requires a - functionModules == b - functionModules
    ensures Masked(a, functionModules, mask, size) - functionModules ==
              Masked(b, functionModules, mask, size) - functionModules
  {
    hide Inverts;
    forall p | p !in functionModules
      ensures p in a <==> p in b
    {
      assert p in a - functionModules <==> p in b - functionModules;
    }
  }

  /** Removing the mask of a finished symbol leaves its codeword modules as they were before masking. */
  lemma UnmaskingRestores(dark: set<Point>, ver: Version, ecl: Ecc, mask: Mask)
    ensures Masked(WithMask(dark, ver, ecl, mask), FunctionModules(ver), mask, SizeOf(ver)) - FunctionModules(ver) ==
            dark - FunctionModules(ver)
  {
    hide Masked, FormatDrawn, FunctionModules, FormatBits;
    var f, size := FunctionModules(ver), SizeOf(ver);
    var masked := Masked(dark, f, mask, size);
    FormatKeepsDataModules(masked, ver, FormatBits(ecl, mask));
    MaskIsPointwise(WithMask(dark, ver, ecl, mask), masked, f, mask, size);
    MaskIsInvolution(dark, f, mask, size);
  }

  lemma ReadBitsOutside(a: set<Point>, b: set<Point>, functionModules: set<Point>, order: seq<Point>, n: nat)
    requires n <= |order| && (forall p | p in order :: p !in functionModules)
    requires a - functionModules == b - functionModules
    ensures ReadBits(a, order, n) == ReadBits(b, order, n)
  {
    forall k | 0 <= k < n
      ensures order[k] in a <==> order[k] in b
    {
      assert order[k] in a - functionModules <==> order[k] in b - functionModules;
    }
  }

  lemma OrderAvoidsFunctionModules(ver: Version)
    ensures forall p | p in DataOrder(ver) :: p !in FunctionModules(ver)
  {
    hide FunctionModules, DataOrder, WholeGrid;
    DataOrderCoversDataModules(ver);
    assert forall p | p in DataOrder(ver) :: p in Elements(DataOrder(ver));
  }

  lemma PlacedWithinGrid(ver: Version, bits: seq<bool>)
    requires |bits| <= |DataOrder(ver)|
    ensures WithinGrid(FunctionModules(ver) + Placed(DataOrder(ver), bits), SizeOf(ver))
  {
    hide FunctionModules, DataOrder;
    DataOrderCoversDataModules(ver);
    FunctionModulesInGrid(ver);
    forall p | p in Placed(DataOrder(ver), bits)
      ensures p in WholeGrid(SizeOf(ver))
    {
      assert p in Elements(DataOrder(ver));
    }
  }

  /** Every codeword comes back from a finished symbol, whatever the mask. */
  lemma CodewordsComeBack(ver: Version, ecl: Ecc, mask: Mask, codewords: seq<byte>)
    requires |codewords| == RawCodewords(ver)
    ensures ReadCodewords(WithMask(Unmasked(ver, codewords), ver, ecl, mask), ver, mask) == codewords
  {
    hide LightDrawn, FunctionModules, DataOrder, WithMask, Masked, ReadBits, Placed, BytesOf, NumRawDataModules;
    CodewordsFit(ver);
    var placed := FunctionModules(ver) + Placed(DataOrder(ver), BufferBits(codewords, 8 * |codewords|));
    PlacedWithinGrid(ver, BufferBits(codewords, 8 * |codewords|));
    LightDrawnKeepsDataModules(placed, ver);
    UnmaskingRestores(Unmasked(ver, codewords), ver, ecl, mask);
    OrderAvoidsFunctionModules(ver);
    ReadBitsOutside(Masked(WithMask(Unmasked(ver, codewords), ver, ecl, mask), FunctionModules(ver), mask, SizeOf(ver)),
                    placed, FunctionModules(ver), DataOrder(ver), 8 * RawCodewords(ver));
    CodewordsReadBack(ver, codewords);
  }

  lemma DataBitsComeBack(bits: seq<bool>, l: Layout)
    requires l.Valid() && |bits| == 8 * l.dataLen
    ensures DataBitsOf(Interleaved(BytesOf(bits), l), l) == bits
  {
    hide Interleaved, Deinterleaved, BytesOf;
    DeinterleaveRoundTrip(BytesOf(bits), l);
    var bytes := BytesOf(bits);
    assert bytes[..l.dataLen] == bytes;
    BufferBitsOfBytes(bits);
  }

  lemma BufferBitsOfBytes(bits: seq<bool>)
    requires |bits| % 8 == 0
    ensures BufferBits(BytesOf(bits), |bits|) == bits
  {
    hide Bit, ByteOf;
    forall i | 0 <= i < |bits|
      ensures BufferBit(BytesOf(bits), i) == bits[i]
    {
      var j := i / 8;
      assert BytesOf(bits)[j] == ByteOf(bits[8 * j..8 * j + 8]);
      BitOfByte(bits[8 * j..8 * j + 8], i % 8);
    }
  }

  lemma BitOfByte(b: seq<bool>, i: nat)
    requires |b| == 8 && i < 8
    ensures Bit(ByteOf(b), 7 - i) == b[i]
  {
    hide ValueOf, Bit;
    BitsOfValue(b);
    assert BitsOf(ByteOf(b), 8)[i] == Bit(ByteOf(b), 8 - 1 - i);
  }

  /** Reading a finished QR Code gives back the mode, the count and the data bits of every segment. */
  lemma SymbolReadsBack(segs: seq<Segment>, ver: Version, ecl: Ecc, mask: Mask)
    requires AllExact(segs) && Fits(segs, ver, ecl)
    ensures ReadSymbol(Symbol(segs, ver, ecl, mask), ver) == ReadingsOf(segs)
  {
    hide WithMask, Unmasked, ReadCodewords, ReadFormatData, FormatData, Stream, Parse, Interleaved, DataBitsOf, BytesOf,
      LayoutOf, Fits, LevelOf;
    var codewords := Codewords(segs, ver, ecl);
    FormatReadsBackIn(Unmasked(ver, codewords), ver, ecl, mask);
    LevelOfFormat(ecl, mask);
    CodewordsComeBack(ver, ecl, mask, codewords);
    DataBitsComeBack(Stream(segs, ver, ecl), LayoutOf(ver, ecl));
    StreamParses(segs, ver, ecl);
  }

  /** Every block read from a finished QR Code, with its error correction behind it, evaluates to zero at
      2^0 .. 2^(eccLen-1): the check that a reader makes. */
  lemma BlocksOfSymbolVanish(segs: seq<Segment>, ver: Version, ecl: Ecc, mask: Mask, i: nat, k: nat)
    requires ValidSegments(segs) && Fits(segs, ver, ecl)
    requires i < LayoutOf(ver, ecl).numBlocks && k < LayoutOf(ver, ecl).eccLen
    ensures var r, l := ReadCodewords(Symbol(segs, ver, ecl, mask), ver, mask), LayoutOf(ver, ecl);
            Eval(ReadBlock(r, l, i) + ReadEcc(r, l, i), Root(k)) == 0
  {
    hide WithMask, Unmasked, ReadCodewords, Stream, Interleaved, BytesOf, LayoutOf, Fits, Eval, ReadBlock, ReadEcc,
      Codeword;
    var l := LayoutOf(ver, ecl);
    CodewordsComeBack(ver, ecl, mask, Codewords(segs, ver, ecl));
    BlocksAreCodewords(BytesOf(Stream(segs, ver, ecl)), l, i);
    CodewordVanishesAtRoots(Block(BytesOf(Stream(segs, ver, ecl)), l, i), l.eccLen, k);
  }

  /** A block of a finished QR Code of which a reader gets at most half as many bytes wrong as there are error
      correction bytes: the one data block within that distance of what it received is the right one. */
  lemma DamagedBlockComesBack(segs: seq<Segment>, ver: Version, ecl: Ecc, mask: Mask, i: nat, received: seq<byte>,
                              candidate: seq<byte>)
    requires ValidSegments(segs) && Fits(segs, ver, ecl) && i < LayoutOf(ver, ecl).numBlocks
    requires var r, l := ReadCodewords(Symbol(segs, ver, ecl, mask), ver, mask), LayoutOf(ver, ecl);
             && |candidate| == l.BlockLen(i) && |received| == l.BlockLen(i) + l.eccLen
             && 2 * WrongPlaces(received, ReadBlock(r, l, i) + ReadEcc(r, l, i)) <= l.eccLen
             && 2 * WrongPlaces(received, Codeword(candidate, l.eccLen)) <= l.eccLen
    ensures candidate == ReadBlock(ReadCodewords(Symbol(segs, ver, ecl, mask), ver, mask), LayoutOf(ver, ecl), i)
  {
    hide WithMask, Unmasked, ReadCodewords, Stream, Interleaved, BytesOf, LayoutOf, Fits, WrongPlaces, ReadBlock,
      ReadEcc, Codeword, Block;
    var l, data := LayoutOf(ver, ecl), BytesOf(Stream(segs, ver, ecl));
    CodewordsComeBack(ver, ecl, mask, Codewords(segs, ver, ecl));
    BlocksAreCodewords(data, l, i);
    BlocksAreShort(ver, ecl, i);
    DamagedBlockDetermines(Block(data, l, i), candidate, l.eccLen, received);
  }

  // ---- The version information

  /** The version information of a symbol, from bit 17 down, in the block at the right or in its mirror image. */
  ghost function VersionString(dark: set<Point>, size: int, mirrored: bool): (b: seq<bool>)
    ensures |b| == 18
  {
    seq(18, i requires 0 <= i < 18 =>
      var p := VersionPos(size, 17 - i);
      (if mirrored then (p.1, p.0) else p) in dark)
  }

  /** What is drawn into the function modules stays through masking and the format information. */
  lemma FunctionModuleStays(dark: set<Point>, ver: Version, ecl: Ecc, mask: Mask, p: Point)
    requires p in FunctionModules(ver) && p !in FinderModules(SizeOf(ver))
    ensures p in WithMask(dark, ver, ecl, mask) <==> p in dark
  {
    hide FunctionModules, FormatBits, FormatColor, FormatPos, FinderModules;
    FormatModulesAreFunction(ver);
    assert FormatDark(SizeOf(ver), FormatBits(ecl, mask), 31) <= FormatModules(SizeOf(ver), 31);
  }

  lemma VersionModuleOfSymbol(ver: Version, ecl: Ecc, mask: Mask, codewords: seq<byte>, k: nat)
    requires ver >= 7 && k < 18 && |codewords| == RawCodewords(ver)
    ensures var p, symbol := VersionPos(SizeOf(ver), k), WithMask(Unmasked(ver, codewords), ver, ecl, mask);
            (p in symbol <==> Bit(VersionBits(ver), k)) && ((p.1, p.0) in symbol <==> Bit(VersionBits(ver), k))
  {
    hide WithMask, FunctionModules, VersionPos, VersionBits, VersionDrawn, HeartsDrawn, FinderDrawn, TimingDrawn,
      FinderModules, Bit, Placed, DataOrder;
    var p, size, symbol := VersionPos(SizeOf(ver), k), SizeOf(ver), Unmasked(ver, codewords);
    CodewordsFit(ver);
    VersionPosApart(ver, k);
    FunctionModuleStays(symbol, ver, ecl, mask, p);
    FunctionModuleStays(symbol, ver, ecl, mask, (p.1, p.0));
    var placed := FunctionModules(ver) + Placed(DataOrder(ver), BufferBits(codewords, 8 * |codewords|));
    var hearts := HeartsDrawn(FinderDrawn(TimingDrawn(placed, size, size - 7), size, -4, 5), ver, NumAlign(ver));
    VersionModuleColor(hearts, size, VersionBits(ver), 18, k);
  }

  lemma Pow2Eighteen()
    ensures Pow2(18) == 262144
  {
    Powers();
    assert Pow2(18) == 8 * Pow2(15);
  }

  /** From version 7 on, both copies of the version information in a finished QR Code hold the bits of its version. */
  lemma VersionReadsBack(segs: seq<Segment>, ver: Version, ecl: Ecc, mask: Mask, mirrored: bool)
    requires ver >= 7 && ValidSegments(segs) && Fits(segs, ver, ecl)
    ensures var b := VersionString(Symbol(segs, ver, ecl, mask), SizeOf(ver), mirrored);
            b == BitsOf(VersionBits(ver), 18) && ValueOf(b) / 4096 == ver
  {
    hide WithMask, Unmasked, Codewords, VersionPos, VersionBits, Bit, ValueOf, Fits;
    var b := VersionString(Symbol(segs, ver, ecl, mask), SizeOf(ver), mirrored);
    forall i | 0 <= i < 18
      ensures b[i] == BitsOf(VersionBits(ver), 18)[i]
    {
      VersionModuleOfSymbol(ver, ecl, mask, Codewords(segs, ver, ecl), 17 - i);
    }
    VersionBitsDetermine(ver);
    Pow2Eighteen();
    ValueOfBits(VersionBits(ver), 18);
  }
}
