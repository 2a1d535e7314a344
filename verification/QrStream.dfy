/**
 The data bit stream of a QR Code: segments, terminator and padding, and the choice of version and
 error correction level. Section 7.4 of ISO/IEC 18004:2015.
 */
module QrStream {
  import opened Bits
  import opened QrTables
  import opened QrSegments

  // ---- Headers and lengths

  function ModeIndicator(mode: Mode): (m: nat)
    ensures 0 < m < 16
  {
    match mode
    case Numeric => 1
    case Alphanumeric => 2
    case Byte => 4
    case Kanji => 8
    case Eci => 7
  }

  /** numCharCountBits: the width of the character count field. */
  function CharCountBits(mode: Mode, ver: Version): (w: nat)
    ensures w <= 16
  {
    var i := (ver + 7) / 17;
    match mode
    case Numeric => if i == 0 then 10 else if i == 1 then 12 else 14
    case Alphanumeric => if i == 0 then 9 else if i == 1 then 11 else 13
    case Byte => if i == 0 then 8 else 16
    case Kanji => if i == 0 then 8 else if i == 1 then 10 else 12
    case Eci => 0
  }

  ghost predicate ValidSegments(segs: seq<Segment>) {
    forall k | 0 <= k < |segs| :: segs[k].Valid()
  }

  predicate CountFits(seg: Segment, ver: Version) {
    seg.numChars < Pow2(CharCountBits(seg.mode, ver))
  }

  function SegmentLength(seg: Segment, ver: Version): nat {
    4 + CharCountBits(seg.mode, ver) + seg.bitLength
  }

  function TotalLength(segs: seq<Segment>, ver: Version): nat {
    if segs == [] then 0 else TotalLength(segs[..|segs| - 1], ver) + SegmentLength(segs[|segs| - 1], ver)
  }

  /** What getTotalBits stands for: the length of the stream, unless a count or the whole does not fit. */
  function TotalBits(segs: seq<Segment>, ver: Version): int {
    if (forall k | 0 <= k < |segs| :: CountFits(segs[k], ver)) && TotalLength(segs, ver) <= INT16_MAX
    then TotalLength(segs, ver)
    else LENGTH_OVERFLOW
  }

  lemma {:induction false} TotalLengthGrows(segs: seq<Segment>, n: nat, ver: Version)
    requires n <= |segs|
    ensures TotalLength(segs[..n], ver) <= TotalLength(segs, ver)
  {
    if n == |segs| {
      assert segs[..n] == segs;
    } else {
      TotalLengthGrows(segs[..|segs| - 1], n, ver);
      assert segs[..|segs| - 1][..n] == segs[..n];
    }
  }

  /** getTotalBits, which stops at the first segment that overflows. */
  method GetTotalBits(segs: seq<Segment>, ver: Version) returns (total: int)
    ensures total == TotalBits(segs, ver)
  {
    hide SegmentLength, CharCountBits, Pow2;
    var result: nat := 0;
    for i := 0 to |segs|
      invariant forall k | 0 <= k < i :: CountFits(segs[k], ver)
      invariant result == TotalLength(segs[..i], ver) <= INT16_MAX
    {
      if segs[i].numChars >= Pow2(CharCountBits(segs[i].mode, ver)) {
        assert !CountFits(segs[i], ver);
        return LENGTH_OVERFLOW;
      }
      assert segs[..i + 1][..i] == segs[..i];
      result := result + SegmentLength(segs[i], ver);
      if result > INT16_MAX {
        TotalLengthGrows(segs, i + 1, ver);
        return LENGTH_OVERFLOW;
      }
    }
    assert segs[..|segs|] == segs;
    return result;
  }

  /** The segments fit in a QR Code of the given version and level. */
  predicate Fits(segs: seq<Segment>, ver: Version, ecl: Ecc) {
    TotalBits(segs, ver) != LENGTH_OVERFLOW && TotalBits(segs, ver) <= 8 * NumDataCodewords(ver, ecl)
  }

  // ---- The stream

  function HeaderBits(seg: Segment, ver: Version): seq<bool> {
    BitsOf(ModeIndicator(seg.mode), 4) + BitsOf(seg.numChars, CharCountBits(seg.mode, ver))
  }

  function SegmentBits(seg: Segment, ver: Version): (b: seq<bool>)
    requires seg.bitLength <= 8 * |seg.data|
    ensures |b| == SegmentLength(seg, ver)
  {
    HeaderBits(seg, ver) + seg.DataBits()
  }

  function SegmentsBits(segs: seq<Segment>, ver: Version): (b: seq<bool>)
    requires ValidSegments(segs)
    ensures |b| == TotalLength(segs, ver)
  {
    if segs == [] then [] else SegmentsBits(segs[..|segs| - 1], ver) + SegmentBits(segs[|segs| - 1], ver)
  }

  /** n bytes that alternate between 0xEC and 0x11. */
  function PadBytes(n: nat): (b: seq<bool>)
    ensures |b| == 8 * n
  {
    if n == 0 then [] else PadBytes(n - 1) + BitsOf(if n % 2 == 1 then 0xEC else 0x11, 8)
  }

  /** The zeros behind the segments: up to four of them to terminate, then up to a whole byte. */
  function TerminatorLen(used: nat, capacity: nat): (n: nat)
    requires used <= capacity && capacity % 8 == 0
    ensures used + n <= capacity && (used + n) % 8 == 0
  {
    var t := if capacity - used > 4 then 4 else capacity - used;
    t + (8 - (used + t) % 8) % 8
  }

  /** The data bits, the terminator and the padding up to the capacity. */
  function Completed(bits: seq<bool>, capacity: nat): (b: seq<bool>)
    requires |bits| <= capacity && capacity % 8 == 0
    ensures |b| == capacity
  {
    var zeros := TerminatorLen(|bits|, capacity);
    WholeBytes(|bits|, zeros, capacity);
    bits + Zeros(zeros) + PadBytes((capacity - |bits| - zeros) / 8)
  }

  lemma WholeBytes(used: nat, zeros: nat, capacity: nat)
    requires used + zeros <= capacity && capacity % 8 == 0 && (used + zeros) % 8 == 0
    ensures (capacity - used - zeros) / 8 >= 0 && 8 * ((capacity - used - zeros) / 8) == capacity - used - zeros
  {
  }

  function Stream(segs: seq<Segment>, ver: Version, ecl: Ecc): (b: seq<bool>)
    requires ValidSegments(segs) && Fits(segs, ver, ecl)
    ensures |b| == 8 * NumDataCodewords(ver, ecl)
  {
    Completed(SegmentsBits(segs, ver), 8 * NumDataCodewords(ver, ecl))
  }

  // ---- Writing it

  lemma SegmentsBitsSnoc(segs: seq<Segment>, i: nat, ver: Version)
    requires ValidSegments(segs) && i < |segs|
    ensures SegmentsBits(segs[..i + 1], ver) == SegmentsBits(segs[..i], ver) + SegmentBits(segs[i], ver)
  {
    assert segs[..i + 1][..i] == segs[..i];
  }

  /** The loop that concatenates all segments. */
  method AppendSegments(segs: seq<Segment>, ver: Version, buffer: array<byte>, ghost bytes: nat) returns (bitLen: nat)
    requires ValidSegments(segs) && (forall k | 0 <= k < |segs| :: CountFits(segs[k], ver))
    requires Contains(buffer[..], [], bytes) && TotalLength(segs, ver) <= 8 * bytes
    modifies buffer
    ensures bitLen == TotalLength(segs, ver) && Contains(buffer[..], SegmentsBits(segs, ver), bytes)
  {
    hide Contains, SegmentBits, SegmentLength, CharCountBits, CountFits;
    bitLen := 0;
    for i := 0 to |segs|
      invariant bitLen == TotalLength(segs[..i], ver)
      invariant Contains(buffer[..], SegmentsBits(segs[..i], ver), bytes)
    {
      SegmentsBitsSnoc(segs, i, ver);
      TotalLengthGrows(segs, i + 1, ver);
      bitLen := AppendSegment(segs[i], ver, buffer, bitLen, SegmentsBits(segs[..i], ver), bytes);
    }
    assert segs[..|segs|] == segs;
  }

  /** The body of that loop: mode, count, and the data bits one at a time. */
  method AppendSegment(seg: Segment, ver: Version, buffer: array<byte>, bitLen0: nat, ghost bits: seq<bool>,
                       ghost bytes: nat)
    returns (bitLen: nat)
    requires seg.Valid() && CountFits(seg, ver) && bitLen0 == |bits|
    requires Contains(buffer[..], bits, bytes) && |bits| + SegmentLength(seg, ver) <= 8 * bytes
    modifies buffer
    ensures bitLen == bitLen0 + SegmentLength(seg, ver)
    ensures Contains(buffer[..], bits + SegmentBits(seg, ver), bytes)
  {
    hide Contains, CharCountBits, BufferBit, BitsOf, Pow2, BufferBits, HeaderBits;
    ghost var data := seg.DataBits();
    bitLen := AppendHeader(seg, ver, buffer, bitLen0, bits, bytes);
    ghost var soFar := bits + HeaderBits(seg, ver);
    assert soFar + data[..0] == soFar;
    HeaderLength(seg, ver);
    for j := 0 to seg.bitLength
      invariant bitLen == |soFar| + j
      invariant Contains(buffer[..], soFar + data[..j], bytes)
    {
      var bit := Bit(seg.data[j / 8], 7 - j % 8);
      BitAsNumber(bit);
      assert bit == data[j] by {
        assert data[j] == BufferBit(seg.data, j);
        BufferBitIs(seg.data, j);
      }
      bitLen := AppendBits(if bit then 1 else 0, 1, buffer, bitLen, soFar + data[..j], bytes);
      assert soFar + data[..j] + [bit] == soFar + data[..j + 1];
    }
    assert soFar + data[..seg.bitLength] == bits + SegmentBits(seg, ver);
  }

  method AppendHeader(seg: Segment, ver: Version, buffer: array<byte>, bitLen0: nat, ghost bits: seq<bool>,
                      ghost bytes: nat)
    returns (bitLen: nat)
    requires CountFits(seg, ver) && bitLen0 == |bits|
    requires Contains(buffer[..], bits, bytes) && |bits| + 4 + CharCountBits(seg.mode, ver) <= 8 * bytes
    modifies buffer
    ensures bitLen == bitLen0 + 4 + CharCountBits(seg.mode, ver)
    ensures Contains(buffer[..], bits + HeaderBits(seg, ver), bytes)
  {
    hide Contains, CharCountBits, BitsOf;
    assert Pow2(4) == 16;
    bitLen := AppendBits(ModeIndicator(seg.mode), 4, buffer, bitLen0, bits, bytes);
    ghost var soFar := bits + BitsOf(ModeIndicator(seg.mode), 4);
    bitLen := AppendBits(seg.numChars, CharCountBits(seg.mode, ver), buffer, bitLen, soFar, bytes);
    assert soFar + BitsOf(seg.numChars, CharCountBits(seg.mode, ver)) == bits + HeaderBits(seg, ver);
  }

  lemma HeaderLength(seg: Segment, ver: Version)
    ensures |HeaderBits(seg, ver)| == 4 + CharCountBits(seg.mode, ver)
  {
  }

  lemma BufferBitIs(data: seq<byte>, j: nat)
    requires j / 8 < |data|
    ensures BufferBit(data, j) == Bit(data[j / 8], 7 - j % 8)
  {
  }

  lemma BitAsNumber(bit: bool)
    ensures BitsOf(if bit then 1 else 0, 1) == [bit] && Pow2(1) == 2
  {
    assert BitsOf(0, 0) == [];
  }

  /** Terminator and padding. */
  method AppendPadding(buffer: array<byte>, used: nat, capacity: nat, ghost bits: seq<bool>, ghost bytes: nat)
    requires used == |bits| <= capacity <= 8 * bytes && capacity % 8 == 0 && Contains(buffer[..], bits, bytes)
    modifies buffer
    ensures Contains(buffer[..], Completed(bits, capacity), bytes)
  {
    hide Contains, PadBytes, BitsOf, Pow2, Zeros, TerminatorLen;
    var terminatorBits := capacity - used;
    if terminatorBits > 4 {
      terminatorBits := 4;
    }
    ZeroBits(terminatorBits);
    var bitLen := AppendBits(0, terminatorBits, buffer, used, bits, bytes);
    var align := (8 - bitLen % 8) % 8;
    ZeroBits(align);
    bitLen := AppendBits(0, align, buffer, bitLen, bits + Zeros(terminatorBits), bytes);
    ZerosJoin(bits, terminatorBits, align);
    TerminatorIs(used, capacity, terminatorBits, align);
    AppendPadBytes(buffer, bitLen, capacity, bits + Zeros(terminatorBits + align), bytes);
  }

  lemma TerminatorIs(used: nat, capacity: nat, t: nat, align: nat)
    requires used <= capacity && capacity % 8 == 0
    requires t == (if capacity - used > 4 then 4 else capacity - used) && align == (8 - (used + t) % 8) % 8
    ensures TerminatorLen(used, capacity) == t + align
  {
  }

  /** The loop that pads with alternating bytes until the capacity is reached. */
  method AppendPadBytes(buffer: array<byte>, used: nat, capacity: nat, ghost bits: seq<bool>, ghost bytes: nat)
    requires used == |bits| <= capacity <= 8 * bytes && capacity % 8 == 0 && used % 8 == 0
    requires Contains(buffer[..], bits, bytes)
    modifies buffer
    ensures Contains(buffer[..], bits + PadBytes((capacity - used) / 8), bytes)
  {
    hide Contains, PadBytes, Xor, BitsOf, Pow2;
    NoPadBytes(bits);
    var bitLen := used;
    var padByte := 0xEC;
    ghost var n := 0;
    while bitLen < capacity
      invariant bitLen == used + 8 * n <= capacity
      invariant padByte == if n % 2 == 0 then 0xEC else 0x11
      invariant Contains(buffer[..], bits + PadBytes(n), bytes)
    {
      PadBytesSnoc(bits, n);
      Pow2Eight();
      bitLen := AppendBits(padByte, 8, buffer, bitLen, bits + PadBytes(n), bytes);
      PadByteToggles();
      padByte := Xor(padByte, Xor(0xEC, 0x11));
      n := n + 1;
    }
  }

  lemma PadByteToggles()
    ensures Xor(0xEC, Xor(0xEC, 0x11)) == 0x11 && Xor(0x11, Xor(0xEC, 0x11)) == 0xEC
  {
    XorCancels(0xEC, 0x11);
    XorCommutes(0xEC, 0x11);
    XorCancels(0x11, 0xEC);
  }

  lemma ZerosJoin(bits: seq<bool>, m: nat, n: nat)
    ensures bits + Zeros(m) + Zeros(n) == bits + Zeros(m + n)
  {
  }

  lemma {:induction false} ZeroBits(n: nat)
    requires n <= 16
    ensures BitsOf(0, n) == Zeros(n) && 0 < Pow2(n)
  {
    forall i | 0 <= i < n
      ensures BitsOf(0, n)[i] == Zeros(n)[i]
    {
      ZeroBit(n - 1 - i);
    }
  }

  lemma NoPadBytes(s: seq<bool>)
    ensures s + PadBytes(0) == s
  {
  }

  lemma PadBytesSnoc(s: seq<bool>, n: nat)
    ensures s + PadBytes(n + 1) == s + PadBytes(n) + BitsOf(if n % 2 == 0 then 0xEC else 0x11, 8)
  {
    hide BitsOf;
    assert s + (PadBytes(n) + BitsOf(if n % 2 == 0 then 0xEC else 0x11, 8)) ==
             s + PadBytes(n) + BitsOf(if n % 2 == 0 then 0xEC else 0x11, 8);
  }
}
