/**
 Encoding a text, and reading it back from the finished QR Code.
 */
module QrText {
  import opened Bits
  import opened QrTables
  import opened QrGrid
  import opened QrMask
  import opened QrSegments
  import opened QrStream
  import opened QrParse
  import opened QrSymbol
  import opened QrEncoder
  import opened QrReference

  /** A C string without its end: bytes other than zero, as characters. */
  ghost predicate IsCString(text: string) {
    forall i | 0 <= i < |text| :: 0 < text[i] as int < 256
  }

  /** qrcodegen_isNumeric. */
  method IsNumeric(text: string) returns (yes: bool)
    ensures yes <==> IsText(NUMERIC, text)
  {
    for i := 0 to |text|
      invariant forall k | 0 <= k < i :: text[k] in DIGITS
    {
      if text[i] < '0' || text[i] > '9' {
        assert text[i] !in DIGITS;
        return false;
      }
      assert DIGITS[text[i] as int - '0' as int] == text[i];
    }
    return true;
  }

  /** qrcodegen_isAlphanumeric. */
  method IsAlphanumeric(text: string) returns (yes: bool)
    ensures yes <==> IsText(ALPHANUMERIC, text)
  {
    for i := 0 to |text|
      invariant forall k | 0 <= k < i :: text[k] in ALPHANUMERIC_CHARSET
    {
      if text[i] !in ALPHANUMERIC_CHARSET {
        return false;
      }
    }
    return true;
  }

  /** The most compact mode that can carry the text. */
  ghost function TextMode(text: string): Mode {
    if IsText(NUMERIC, text) then Numeric else if IsText(ALPHANUMERIC, text) then Alphanumeric else Byte
  }

  ghost function TextBits(text: string): int {
    CalcSegmentBitLength(TextMode(text), |text|)
  }

  /** A text fits exactly when the standard's count field holds its length, and header and data its capacity. */
  lemma TextFitsExactly(text: string, ver: Version, ecl: Ecc)
    requires text != []
    ensures TextFits(text, ver, ecl) <==>
              var m := TextMode(text);
              && |text| < Pow2(CountWidth(m, ver))
              && 4 + CountWidth(m, ver) + DataLength(m, |text|) <= 8 * Capacity(ver, ecl)
  {
    hide NumDataCodewords, Capacity, CharCountBits, CountWidth, IsText, RawCodewords;
    var m := TextMode(text);
    CapacityIs(ver, ecl);
    CapacityBound(ver, ecl);
    WidthsAgree(m, ver, |text|);
    AtLeastThreeBits(m, |text|);
    if TextBits(text) != LENGTH_OVERFLOW {
      var seg := Segment(m, |text|, [], TextBits(text));
      assert [seg][..0] == [];
      assert TotalLength([seg], ver) == SegmentLength(seg, ver);
    }
  }

  lemma AtLeastThreeBits(m: Mode, n: nat)
    requires m != Eci && m != Kanji
    ensures DataLength(m, n) >= 3 * n && (CalcSegmentBitLength(m, n) == LENGTH_OVERFLOW ==> DataLength(m, n) > 32767)
  {
  }

  /** The modes in which qrcodegen_encodeText could write the text. */
  ghost predicate CanCarry(mode: Mode, text: string) {
    mode == Byte || (mode == Numeric && IsText(NUMERIC, text)) || (mode == Alphanumeric && IsText(ALPHANUMERIC, text))
  }

  /** No mode that can carry the text needs fewer bits than the chosen one, with its header in any version. */
  lemma TextModeIsShortest(text: string, mode: Mode, ver: Version)
    requires text != [] && CanCarry(mode, text) && CalcSegmentBitLength(mode, |text|) != LENGTH_OVERFLOW
    ensures CanCarry(TextMode(text), text) && TextBits(text) != LENGTH_OVERFLOW
    ensures TextBits(text) <= CalcSegmentBitLength(mode, |text|)
    ensures SegmentLength(Segment(TextMode(text), |text|, [], TextBits(text)), ver) <=
            SegmentLength(Segment(mode, |text|, [], CalcSegmentBitLength(mode, |text|)), ver)
  {
    hide IsText;
    if IsText(NUMERIC, text) {
      DigitsAreAlphanumeric(text);
    }
  }

  lemma DigitsAreAlphanumeric(text: string)
    requires IsText(NUMERIC, text)
    ensures IsText(ALPHANUMERIC, text)
  {
    assert forall i | 0 <= i < 10 :: ALPHANUMERIC_CHARSET[i] == DIGITS[i];
  }

  /** The text fits in a QR Code of the given version and level. */
  ghost predicate TextFits(text: string, ver: Version, ecl: Ecc) {
    text == [] || (TextBits(text) != LENGTH_OVERFLOW
                   && Fits([Segment(TextMode(text), |text|, [], TextBits(text))], ver, ecl))
  }

  // ---- How a reader turns data bits into text, from tables 5 and 6 of the standard

  function DigitChar(v: nat): char
    requires v < 10
  {
    ('0' as int + v) as char
  }

  function AlphanumericChar(v: nat): char
    requires v < 45
  {
    if v < 10 then DigitChar(v)
    else if v < 36 then ('A' as int + v - 10) as char
    else
      match v
      case 36 => ' ' case 37 => '$' case 38 => '%' case 39 => '*' case 40 => '+'
      case 41 => '-' case 42 => '.' case 43 => '/' case _ => ':'
  }

  /** The last k decimal digits of a number. */
  function LastDigits(v: nat, k: nat): string
    decreases k
  {
    if k == 0 then [] else LastDigits(v / 10, k - 1) + [DigitChar(v % 10)]
  }

  /** Three digits in ten bits, two in seven or one in four. */
  function ReadDigits(bits: seq<bool>, n: nat): string {
    var (k, w) := if n >= 3 then (3, 10) else if n == 2 then (2, 7) else (1, 4);
    if n == 0 || |bits| < w then [] else LastDigits(ValueOf(bits[..w]), k) + ReadDigits(bits[w..], n - k)
  }

  /** Two characters in eleven bits, or one in six. */
  function ReadAlphanumerics(bits: seq<bool>, n: nat): string {
    if n >= 2 then
      if |bits| < 11 then []
      else
        var v := ValueOf(bits[..11]);
        [AlphanumericChar(v / 45 % 45), AlphanumericChar(v % 45)] + ReadAlphanumerics(bits[11..], n - 2)
    else if n == 1 && |bits| >= 6 then [AlphanumericChar(ValueOf(bits[..6]) % 45)]
    else []
  }

  function TextOf(p: Parsed): string {
    match p.mode
    case Numeric => ReadDigits(p.bits, p.numChars)
    case Alphanumeric => ReadAlphanumerics(p.bits, p.numChars)
    case Byte => CharsOf(BytesOf(p.bits))
    case Kanji => []
    case Eci => []
  }

  function CharsOf(bytes: seq<byte>): string {
    seq(|bytes|, i requires 0 <= i < |bytes| => bytes[i] as char)
  }

  function TextOfAll(parsed: seq<Parsed>): string {
    if parsed == [] then [] else TextOf(parsed[0]) + TextOfAll(parsed[1..])
  }

  // ---- One segment

  lemma FitsIgnoresData(seg: Segment, other: Segment, ver: Version, ecl: Ecc)
    requires seg.mode == other.mode && seg.numChars == other.numChars && seg.bitLength == other.bitLength
    ensures Fits([seg], ver, ecl) == Fits([other], ver, ecl)
  {
    hide CharCountBits, NumDataCodewords, Pow2;
    assert [seg][..0] == [] && [other][..0] == [];
    assert TotalLength([seg], ver) == TotalLength([other], ver);
    assert CountFits(seg, ver) == CountFits(other, ver);
  }

  /** A segment that fits in a version of the range fits in the buffer of the largest one. */
  lemma FittingBitsFitBuffer(seg: Segment, ver: Version, maxVersion: Version, ecl: Ecc)
    requires ver <= maxVersion && Fits([seg], ver, ecl)
    ensures (seg.bitLength + 7) / 8 <= BufferLen(SizeOf(maxVersion))
  {
    hide CharCountBits, NumDataCodewords, Pow2, RawCodewords, BufferLen;
    assert [seg][..0] == [];
    BuffersSuffice(ver, maxVersion);
  }

  lemma TooLongForBuffer(text: string, maxVersion: Version, ecl: Ecc)
    requires text != []
    requires TextBits(text) == LENGTH_OVERFLOW || (TextBits(text) + 7) / 8 > BufferLen(SizeOf(maxVersion))
    ensures forall v: Version | v <= maxVersion :: !TextFits(text, v, ecl)
  {
    hide Fits, BufferLen, TextMode;
    forall v: Version | v <= maxVersion
      ensures !TextFits(text, v, ecl)
    {
      if TextFits(text, v, ecl) {
        FittingBitsFitBuffer(Segment(TextMode(text), |text|, [], TextBits(text)), v, maxVersion, ecl);
      }
    }
  }

  lemma NothingFits(ver: Version, ecl: Ecc)
    ensures Fits([], ver, ecl)
  {
    hide NumDataCodewords;
    assert TotalLength([], ver) == 0;
  }

  lemma ReadsAsText(segs: seq<Segment>, text: string, ver: Version, ecl: Ecc, mask: Mask)
    requires |segs| <= 1 && AllExact(segs) && Fits(segs, ver, ecl)
    requires text == if segs == [] then [] else TextOf(ReadingOf(segs[0]))
    ensures TextOfAll(ReadSymbol(Symbol(segs, ver, ecl, mask), ver)) == text
  {
    hide ReadSymbol, Symbol, TextOf, Fits, Exact;
    SymbolReadsBack(segs, ver, ecl, mask);
    var r := ReadingsOf(segs);
    if segs != [] {
      assert TextOfAll(r[1..]) == [];
    }
  }

  lemma ByteText(text: string, buffer: seq<byte>)
    requires IsCString(text) && |text| <= |buffer|
    requires forall i | 0 <= i < |text| :: buffer[i] == text[i] as int
    ensures CharsOf(BytesOf(BufferBits(buffer, 8 * |text|))) == text
  {
    BytesOfBufferBits(buffer, |text|);
  }

  lemma CharsetIs()
    ensures forall v: nat | v < 10 :: DIGITS[v] == DigitChar(v)
    ensures forall v: nat | v < 45 :: ALPHANUMERIC_CHARSET[v] == AlphanumericChar(v)
  {
  }

  lemma {:induction false} DigitsOfNumber(v: nat, k: nat)
    ensures Characters(NUMERIC, v, k) == LastDigits(v, k)
  {
    CharsetIs();
    if k > 0 {
      DigitsOfNumber(v / 10, k - 1);
    }
  }

  /** The reader undoes what the writer packs. */
  lemma {:induction false} ReadDigitsIs(bits: seq<bool>, n: nat)
    ensures ReadDigits(bits, n) == Unpacked(NUMERIC, bits, n)
    decreases n
  {
    hide Characters, LastDigits, ValueOf;
    var k := GroupLen(NUMERIC, n);
    var w := GroupBits(NUMERIC, k);
    if n > 0 && |bits| >= w {
      DigitsOfNumber(ValueOf(bits[..w]), k);
      ReadDigitsIs(bits[w..], n - k);
    }
  }

  lemma {:induction false} ReadAlphanumericsIs(bits: seq<bool>, n: nat)
    ensures ReadAlphanumerics(bits, n) == Unpacked(ALPHANUMERIC, bits, n)
    decreases n
  {
    hide Characters, AlphanumericChar, ValueOf;
    var k := GroupLen(ALPHANUMERIC, n);
    var w := GroupBits(ALPHANUMERIC, k);
    if n > 0 && |bits| >= w {
      OneOrTwo(ValueOf(bits[..w]));
      ReadAlphanumericsIs(bits[w..], n - k);
    }
  }

  lemma OneOrTwo(v: nat)
    ensures Characters(ALPHANUMERIC, v, 1) == [AlphanumericChar(v % 45)]
    ensures Characters(ALPHANUMERIC, v, 2) == [AlphanumericChar(v / 45 % 45), AlphanumericChar(v % 45)]
  {
    hide AlphanumericChar;
    CharsetIs();
    assert Characters(ALPHANUMERIC, v / 45, 0) == [];
  }

  lemma PackedText(p: Packing, text: string)
    requires GroupsFit(p) && IsText(p, text)
    ensures Unpacked(p, Packed(p, text), |text|) == text
  {
    hide Packed, Unpacked;
    UnpackedPacked(p, text, []);
    assert Packed(p, text) + [] == Packed(p, text);
  }

  /** The body of qrcodegen_encodeText that makes the segment, in the temporary buffer. */
  method MakeTextSegment(text: string, bufLen: nat, tempBuffer: array<byte>) returns (fail: bool, seg: Segment)
    requires IsCString(text) && text != [] && bufLen <= tempBuffer.Length
    modifies tempBuffer
    ensures fail <==> TextBits(text) == LENGTH_OVERFLOW || (TextBits(text) + 7) / 8 > bufLen
    ensures !fail ==> seg.mode == TextMode(text) && seg.numChars == |text| && seg.bitLength == TextBits(text)
    ensures !fail ==> Exact(seg) && TextOf(ReadingOf(seg)) == text
  {
    hide Packed, Unpacked, BytesOf, Pow2;
    seg := Segment(Byte, 0, [], 0);
    NumericFits();
    AlphanumericFits();
    var numeric := IsNumeric(text);
    if numeric {
      var bits := CalcSegmentBitLength(Numeric, |text|);
      if bits == LENGTH_OVERFLOW || (bits + 7) / 8 > bufLen {
        return true, seg;
      }
      seg := MakeNumeric(text, tempBuffer);
      PackedText(NUMERIC, text);
      ReadDigitsIs(Packed(NUMERIC, text), |text|);
      return false, seg;
    }
    var alphanumeric := IsAlphanumeric(text);
    if alphanumeric {
      var bits := CalcSegmentBitLength(Alphanumeric, |text|);
      if bits == LENGTH_OVERFLOW || (bits + 7) / 8 > bufLen {
        return true, seg;
      }
      seg := MakeAlphanumeric(text, tempBuffer);
      PackedText(ALPHANUMERIC, text);
      ReadAlphanumericsIs(Packed(ALPHANUMERIC, text), |text|);
      return false, seg;
    }
    if |text| > bufLen {
      return true, seg;
    }
    for i := 0 to |text|
      invariant forall k | 0 <= k < i :: tempBuffer[k] == text[k] as int
    {
      tempBuffer[i] := text[i] as int;
    }
    var bits := CalcSegmentBitLength(Byte, |text|);
    if bits == LENGTH_OVERFLOW {
      return true, seg;
    }
    seg := Segment(Byte, |text|, tempBuffer[..], bits);
    ByteText(text, tempBuffer[..]);
    return false, seg;
  }

  /** qrcodegen_encodeText: it succeeds exactly when the text fits in a version of the range, and then
      the QR Code reads as the text. */
  method EncodeText(text: string, tempBuffer: array<byte>, qrcode: array<byte>, ecl: Ecc, minVersion: Version,
                    maxVersion: Version, mask: int, boostEcl: bool)
    returns (ok: bool, ghost ver: Version)
    requires IsCString(text) && minVersion <= maxVersion && -1 <= mask <= 7 && tempBuffer != qrcode
    requires tempBuffer.Length >= BufferLen(SizeOf(maxVersion)) && qrcode.Length >= BufferLen(SizeOf(maxVersion))
    modifies tempBuffer, qrcode
    ensures ok <==> exists v: Version :: minVersion <= v <= maxVersion && TextFits(text, v, ecl)
    ensures !ok ==> qrcode[..] == old(qrcode[..])[0 := 0]
    ensures ok ==> minVersion <= ver <= maxVersion && TextFits(text, ver, ecl)
                   && forall v: Version | minVersion <= v < ver :: !TextFits(text, v, ecl)
    ensures ok ==> IsGrid(qrcode[..]) && qrcode[0] == SizeOf(ver)
    ensures ok ==> TextOfAll(ReadSymbol(Dark(qrcode[..]), ver)) == text
  {
    hide Fits, Dark, IsGrid, BufferLen, ReadSymbol, TextBits, TextMode, Symbol, TextOf, IsBestMask, Exact, Codewords,
      Unmasked;
    BuffersSuffice(maxVersion, maxVersion);
    RawDataModulesBounds(maxVersion);
    ghost var level: Ecc, finalMask: Mask := 0, 0;
    ver := 1;
    if text == [] {
      ok, ver, level, finalMask := EncodeSegmentsAdvanced([], ecl, minVersion, maxVersion, mask, boostEcl, tempBuffer,
                                                          qrcode);
      NothingFits(minVersion, ecl);
      assert TextFits(text, minVersion, ecl);
      ReadsAsText([], text, ver, level, finalMask);
      return;
    }
    var fail, seg := MakeTextSegment(text, BufferLen(SizeOf(maxVersion)), tempBuffer);
    if fail {
      TooLongForBuffer(text, maxVersion, ecl);
      qrcode[0] := 0;
      return false, ver;
    }
    assert AllExact([seg]);
    forall v: Version
      ensures TextFits(text, v, ecl) == Fits([seg], v, ecl)
    {
      FitsIgnoresData(seg, Segment(TextMode(text), |text|, [], TextBits(text)), v, ecl);
    }
    ok, ver, level, finalMask := EncodeSegmentsAdvanced([seg], ecl, minVersion, maxVersion, mask, boostEcl, tempBuffer,
                                                        qrcode);
    if ok {
      ReadsAsText([seg], text, ver, level, finalMask);
    }
  }
}
