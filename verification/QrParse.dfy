/**
 Reading the data bit stream of a QR Code, independently of how it is written: section 7.4 of ISO/IEC 18004:2015.
 */
module QrParse {
  import opened Bits
  import opened QrTables
  import opened QrSegments
  import opened QrStream
  import opened QrReference

  /** One segment as a reader sees it. */
  datatype Parsed = Parsed(mode: Mode, numChars: nat, bits: seq<bool>)

  datatype Indicator = Terminator | Unknown | ModeIs(mode: Mode)

  function IndicatorOf(m: nat): Indicator {
    if m == 0 then Terminator
    else if m == 1 then ModeIs(Numeric)
    else if m == 2 then ModeIs(Alphanumeric)
    else if m == 4 then ModeIs(Byte)
    else if m == 8 then ModeIs(Kanji)
    else Unknown
  }

  /** The width of the character count field: table 3 of the standard. */
  function CountWidth(mode: Mode, ver: Version): nat {
    if ver <= 9 then
      match mode case Numeric => 10 case Alphanumeric => 9 case Byte => 8 case Kanji => 8 case Eci => 0
    else if ver <= 26 then
      match mode case Numeric => 12 case Alphanumeric => 11 case Byte => 16 case Kanji => 10 case Eci => 0
    else
      match mode case Numeric => 14 case Alphanumeric => 13 case Byte => 16 case Kanji => 12 case Eci => 0
  }

  /** The number of data bits of so many characters: groups of three digits in ten bits, pairs of alphanumeric
      characters in eleven, bytes, and Kanji characters in thirteen. */
  function DataLength(mode: Mode, n: nat): nat {
    match mode
    case Numeric => n / 3 * 10 + (if n % 3 == 0 then 0 else if n % 3 == 1 then 4 else 7)
    case Alphanumeric => n / 2 * 11 + n % 2 * 6
    case Byte => n * 8
    case Kanji => n * 13
    case Eci => 0
  }

  /** The writer uses these widths and lengths. */
  lemma WidthsAgree(mode: Mode, ver: Version, n: nat)
    ensures CharCountBits(mode, ver) == CountWidth(mode, ver)
    ensures mode != Eci && CalcSegmentBitLength(mode, n) != LENGTH_OVERFLOW ==>
              CalcSegmentBitLength(mode, n) == DataLength(mode, n)
  {
  }

  /** The mode indicators are those of table 2; ECI is 7. */
  lemma IndicatorsAre(mode: Mode)
    ensures mode == Eci ==> ModeIndicator(mode) == 7
    ensures mode != Eci ==> IndicatorOf(ModeIndicator(mode)) == ModeIs(mode)
  {
  }

  /** The length of the stream of some segments, from the first one on. */
  function StreamLength(segs: seq<Segment>, ver: Version): nat {
    if segs == [] then 0 else 4 + CountWidth(segs[0].mode, ver) + segs[0].bitLength + StreamLength(segs[1..], ver)
  }

  lemma {:induction false} StreamLengthSnoc(segs: seq<Segment>, seg: Segment, ver: Version)
    ensures StreamLength(segs + [seg], ver) == StreamLength(segs, ver) + 4 + CountWidth(seg.mode, ver) + seg.bitLength
  {
    hide CountWidth;
    if segs == [] {
      assert [] + [seg] == [seg] && [seg][1..] == [];
      assert StreamLength([], ver) == 0;
    } else {
      assert (segs + [seg])[1..] == segs[1..] + [seg];
      StreamLengthSnoc(segs[1..], seg, ver);
    }
  }

  lemma {:induction false} TotalIsStreamLength(segs: seq<Segment>, ver: Version)
    ensures TotalLength(segs, ver) == StreamLength(segs, ver)
  {
    hide CountWidth, CharCountBits;
    if segs != [] {
      var n := |segs| - 1;
      TotalIsStreamLength(segs[..n], ver);
      StreamLengthSnoc(segs[..n], segs[n], ver);
      WidthsAgree(segs[n].mode, ver, 0);
      assert segs == segs[..n] + [segs[n]];
    }
  }

  /** The total is the length of the stream, unless a count field does not hold its count or the total exceeds 32767. */
  lemma TotalBitsExactly(segs: seq<Segment>, ver: Version)
    ensures TotalBits(segs, ver) ==
            if (forall s | s in segs :: s.numChars < Pow2(CountWidth(s.mode, ver))) && StreamLength(segs, ver) <= 32767
            then StreamLength(segs, ver) else -1
  {
    hide CountWidth, CharCountBits, Pow2;
    TotalIsStreamLength(segs, ver);
    forall s: Segment
      ensures CountFits(s, ver) <==> s.numChars < Pow2(CountWidth(s.mode, ver))
    {
      WidthsAgree(s.mode, ver, 0);
    }
    if forall s | s in segs :: s.numChars < Pow2(CountWidth(s.mode, ver)) {
      assert forall k | 0 <= k < |segs| :: segs[k] in segs;
    }
  }

  /** Segments fit exactly when every count field holds its count and the capacity the whole stream. */
  lemma FitsExactly(segs: seq<Segment>, ver: Version, ecl: Ecc)
    ensures Fits(segs, ver, ecl) <==>
              && (forall s | s in segs :: s.numChars < Pow2(CountWidth(s.mode, ver)))
              && StreamLength(segs, ver) <= 8 * Capacity(ver, ecl)
  {
    hide CountWidth, Pow2, Capacity, NumDataCodewords, TotalBits, RawCodewords;
    TotalBitsExactly(segs, ver);
    CapacityIs(ver, ecl);
    CapacityBound(ver, ecl);
  }

  lemma CapacityBound(ver: Version, ecl: Ecc)
    ensures 8 * NumDataCodewords(ver, ecl) <= 29648
  {
    hide NumRawDataModules, EccPerBlock, NumBlocks;
    RawDataModulesBounds(ver);
  }

  /** The segments at the start of a bit stream, up to the terminator or the end. */
  function Parse(bits: seq<bool>, ver: Version): seq<Parsed>
    decreases |bits|
  {
    if |bits| < 4 then []
    else
      match IndicatorOf(ValueOf(bits[..4]))
      case Terminator => []
      case Unknown => []
      case ModeIs(mode) => ParseCounted(mode, bits[4..], ver)
  }

  function ParseCounted(mode: Mode, bits: seq<bool>, ver: Version): seq<Parsed>
    decreases |bits| + 1
  {
    var w := CountWidth(mode, ver);
    if |bits| < w then []
    else
      var numChars := ValueOf(bits[..w]);
      var length := DataLength(mode, numChars);
      if |bits| < w + length then []
      else [Parsed(mode, numChars, bits[w..w + length])] + Parse(bits[w + length..], ver)
  }

  // ---- Round trip

  /** The announced length is the length that the mode and the count stand for. */
  ghost predicate Exact(seg: Segment) {
    seg.Valid() && seg.mode != Eci && seg.bitLength == CalcSegmentBitLength(seg.mode, seg.numChars)
  }

  ghost predicate AllExact(segs: seq<Segment>)
    ensures AllExact(segs) ==> ValidSegments(segs)
  {
    forall k | 0 <= k < |segs| :: Exact(segs[k])
  }

  function ReadingOf(seg: Segment): Parsed
    requires seg.bitLength <= 8 * |seg.data|
  {
    Parsed(seg.mode, seg.numChars, seg.DataBits())
  }

  ghost function ReadingsOf(segs: seq<Segment>): (r: seq<Parsed>)
    requires AllExact(segs)
    ensures |r| == |segs| && forall k | 0 <= k < |segs| :: r[k] == ReadingOf(segs[k])
  {
    seq(|segs|, k requires 0 <= k < |segs| => ReadingOf(segs[k]))
  }

  lemma ParsesOneSegment(seg: Segment, tail: seq<bool>, ver: Version)
    requires Exact(seg) && CountFits(seg, ver)
    ensures Parse(SegmentBits(seg, ver) + tail, ver) == [ReadingOf(seg)] + Parse(tail, ver)
  {
    hide CharCountBits, CountWidth, CalcSegmentBitLength, DataLength, BitsOf, ValueOf, Pow2;
    WidthsAgree(seg.mode, ver, seg.numChars);
    var m, w := ModeIndicator(seg.mode), CharCountBits(seg.mode, ver);
    var count, data := BitsOf(seg.numChars, w), seg.DataBits();
    var all := SegmentBits(seg, ver) + tail;
    assert all[..4] == BitsOf(m, 4);
    ModeIndicatorReadsBack(seg.mode);
    ValueOfBits(seg.numChars, w);
    var rest := all[4..];
    assert rest == count + data + tail;
    assert rest[..w] == count && rest[w..w + seg.bitLength] == data && rest[w + seg.bitLength..] == tail;
  }

  lemma ModeIndicatorReadsBack(mode: Mode)
    requires mode != Eci
    ensures IndicatorOf(ValueOf(BitsOf(ModeIndicator(mode), 4))) == ModeIs(mode)
  {
    hide BitsOf, ValueOf;
    assert Pow2(4) == 16;
    ValueOfBits(ModeIndicator(mode), 4);
  }

  lemma {:induction false} ParsesSegments(segs: seq<Segment>, tail: seq<bool>, ver: Version)
    requires AllExact(segs) && forall k | 0 <= k < |segs| :: CountFits(segs[k], ver)
    ensures Parse(SegmentsBits(segs, ver) + tail, ver) == ReadingsOf(segs) + Parse(tail, ver)
  {
    hide Parse, SegmentBits, CountFits, Exact;
    if segs == [] {
      assert SegmentsBits(segs, ver) + tail == tail;
    } else {
      var n := |segs| - 1;
      var init, last := SegmentsBits(segs[..n], ver), SegmentBits(segs[n], ver);
      assert SegmentsBits(segs, ver) + tail == init + (last + tail);
      ParsesSegments(segs[..n], last + tail, ver);
      ParsesOneSegment(segs[n], tail, ver);
      assert ReadingsOf(segs) == ReadingsOf(segs[..n]) + [ReadingOf(segs[n])];
    }
  }

  lemma ParsingStopsAtTerminator(used: nat, capacity: nat, ver: Version)
    requires used <= capacity && capacity % 8 == 0
    ensures var zeros := TerminatorLen(used, capacity);
            Parse(Zeros(zeros) + PadBytes((capacity - used - zeros) / 8), ver) == []
  {
    hide PadBytes;
    var zeros := TerminatorLen(used, capacity);
    var tail := Zeros(zeros) + PadBytes((capacity - used - zeros) / 8);
    if |tail| >= 4 {
      assert zeros >= 4;
      ZeroBits(4);
      assert tail[..4] == BitsOf(0, 4);
      assert Pow2(4) == 16;
      ValueOfBits(0, 4);
    }
  }

  /** Mode, count and data bits of every segment come back from the stream; terminator and padding add nothing. */
  lemma StreamParses(segs: seq<Segment>, ver: Version, ecl: Ecc)
    requires AllExact(segs) && Fits(segs, ver, ecl)
    ensures Parse(Stream(segs, ver, ecl), ver) == ReadingsOf(segs)
  {
    hide Parse, SegmentsBits, TerminatorLen, PadBytes, NumDataCodewords, CountFits;
    var bits, capacity := SegmentsBits(segs, ver), 8 * NumDataCodewords(ver, ecl);
    var zeros := TerminatorLen(|bits|, capacity);
    var tail := Zeros(zeros) + PadBytes((capacity - |bits| - zeros) / 8);
    assert Stream(segs, ver, ecl) == bits + tail;
    ParsesSegments(segs, tail, ver);
    ParsingStopsAtTerminator(|bits|, capacity, ver);
  }
}
