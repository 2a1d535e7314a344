/**
 Segments and their data bits: section 7.4 of ISO/IEC 18004:2015.
 */
module QrSegments {
  import opened Bits
  import Arith

  const LENGTH_OVERFLOW := -1
  const INT16_MAX := 32767

  datatype Mode = Numeric | Alphanumeric | Byte | Kanji | Eci

  /** A segment with the contents of its data buffer. */
  datatype Segment = Segment(mode: Mode, numChars: nat, data: seq<byte>, bitLength: nat) {

    ghost predicate Valid() {
      numChars <= INT16_MAX && bitLength <= INT16_MAX && bitLength <= 8 * |data|
    }

    function DataBits(): seq<bool>
      requires bitLength <= 8 * |data|
    {
      BufferBits(data, bitLength)
    }
  }

  // ---- Bit buffers

  /** The first bytes of a buffer hold the given bits, and zeros behind them. */
  ghost predicate Contains(buffer: seq<byte>, bits: seq<bool>, bytes: nat) {
    && |bits| <= 8 * bytes && bytes <= |buffer|
    && (forall i | 0 <= i < |bits| :: BufferBit(buffer, i) == bits[i])
    && (forall i | |bits| <= i < 8 * bytes :: !BufferBit(buffer, i))
  }

  /** appendBitsToBuffer: the bits of val go behind those that the buffer holds. */
  method AppendBits(val: nat, numBits: nat, buffer: array<byte>, bitLen0: nat, ghost bits: seq<bool>, ghost bytes: nat)
    returns (bitLen: nat)
    requires numBits <= 16 && val < Pow2(numBits)
    requires bitLen0 == |bits| && Contains(buffer[..], bits, bytes) && |bits| + numBits <= 8 * bytes
    modifies buffer
    ensures bitLen == bitLen0 + numBits
    ensures Contains(buffer[..], bits + BitsOf(val, numBits), bytes)
    ensures forall k | bytes <= k < buffer.Length :: buffer[k] == old(buffer[k])
  {
    bitLen := bitLen0;
    ghost var added := BitsOf(val, numBits);
    var i := numBits - 1;
    assert bits + added[..0] == bits;
    while i >= 0
      invariant -1 <= i < numBits && bitLen == bitLen0 + numBits - 1 - i
      invariant Contains(buffer[..], bits + added[..numBits - 1 - i], bytes)
      invariant forall k | bytes <= k < buffer.Length :: buffer[k] == old(buffer[k])
    {
      AppendOneBit(buffer, bitLen, Bit(val, i), bits + added[..numBits - 1 - i], bytes);
      assert bits + added[..numBits - i] == bits + added[..numBits - 1 - i] + [Bit(val, i)];
      i, bitLen := i - 1, bitLen + 1;
    }
    assert bits + added[..numBits] == bits + added;
  }

  /** buffer[bitLen >> 3] |= bit << (7 - (bitLen & 7)), which changes nothing when the bit is 0. */
  method AppendOneBit(buffer: array<byte>, bitLen: nat, bit: bool, ghost bits: seq<bool>, ghost bytes: nat)
    requires bitLen == |bits| && Contains(buffer[..], bits, bytes) && |bits| < 8 * bytes
    modifies buffer
    ensures Contains(buffer[..], bits + [bit], bytes)
    ensures forall k | bytes <= k < buffer.Length :: buffer[k] == old(buffer[k])
  {
    if bit {
      ghost var before := buffer[..];
      buffer[bitLen / 8] := WithBit(buffer[bitLen / 8], 7 - bitLen % 8, true);
      forall i | 0 <= i < 8 * bytes
        ensures BufferBit(buffer[..], i) == (i == bitLen || BufferBit(before, i))
      {
        if i / 8 == bitLen / 8 {
          assert 7 - i % 8 == 7 - bitLen % 8 <==> i == bitLen;
        }
      }
    }
  }

  // ---- Packing characters into groups

  /** Groups of characters are numbers in the given base; a group of c characters takes width * c + 1 bits. */
  datatype Packing = Packing(charset: string, group: nat, width: nat)

  const DIGITS := "0123456789"
  const ALPHANUMERIC_CHARSET := "0123456789ABCDEFGHIJKLMNOPQRSTUVWXYZ $%*+-./:"

  const NUMERIC := Packing(DIGITS, 3, 3)
  const ALPHANUMERIC := Packing(ALPHANUMERIC_CHARSET, 2, 5)

  /** Every group fits in its bits. */
  ghost predicate GroupsFit(p: Packing) {
    && p.group > 0 && |p.charset| > 0 && p.width * p.group + 1 <= 16
    && forall c | 0 <= c <= p.group :: Arith.Power(|p.charset|, c) <= Pow2(p.width * c + 1)
  }

  lemma NumericFits()
    ensures GroupsFit(NUMERIC) && |DIGITS| == 10
  {
    assert Arith.Power(10, 1) == 10 && Arith.Power(10, 2) == 100 && Arith.Power(10, 3) == 1000;
    assert Pow2(1) == 2 && Pow2(4) == 16 && Pow2(7) == 128 && Pow2(10) == 1024;
  }

  lemma AlphanumericFits()
    ensures GroupsFit(ALPHANUMERIC) && |ALPHANUMERIC_CHARSET| == 45
  {
    assert Arith.Power(45, 1) == 45 && Arith.Power(45, 2) == 2025;
    assert Pow2(1) == 2 && Pow2(6) == 64 && Pow2(11) == 2048;
  }

  /** The place of a character in the character set. */
  function IndexIn(charset: string, c: char): (i: nat)
    requires c in charset
    ensures i < |charset| && charset[i] == c && c !in charset[..i]
  {
    if charset[0] == c then 0 else 1 + IndexIn(charset[1..], c)
  }

  ghost predicate IsText(p: Packing, text: string) {
    forall i | 0 <= i < |text| :: text[i] in p.charset
  }

  /** The number that a group of characters stands for. */
  function Number(p: Packing, text: string): nat
    requires IsText(p, text)
  {
    if text == [] then 0
    else Number(p, text[..|text| - 1]) * |p.charset| + IndexIn(p.charset, text[|text| - 1])
  }

  function GroupLen(p: Packing, n: nat): nat {
    if n < p.group then n else p.group
  }

  /** The bits that a group of k characters takes. */
  function GroupBits(p: Packing, k: nat): (w: nat)
    ensures w >= 1
  {
    Arith.MulMonotone(k, 0, p.width);
    p.width * k + 1
  }

  /** The bits of a text, group by group. */
  function Packed(p: Packing, text: string): seq<bool>
    requires p.group > 0 && IsText(p, text)
  {
    if text == [] then []
    else
      var k := GroupLen(p, |text|);
      BitsOf(Number(p, text[..k]), GroupBits(p, k)) + Packed(p, text[k..])
  }

  /** The k characters of a number. */
  function Characters(p: Packing, v: nat, k: nat): (t: string)
    requires |p.charset| > 0
    ensures |t| == k
    decreases k
  {
    Arith.DivideAtLeast(v, |p.charset|, 0);
    if k == 0 then [] else Characters(p, v / |p.charset|, k - 1) + [p.charset[v % |p.charset|]]
  }

  /** The text of n characters at the start of a bit string; a bit string that is too short gives fewer. */
  function Unpacked(p: Packing, bits: seq<bool>, n: nat): string
    requires p.group > 0 && |p.charset| > 0
  {
    var k := GroupLen(p, n);
    var w := GroupBits(p, k);
    if n == 0 || |bits| < w then []
    else Characters(p, ValueOf(bits[..w]), k) + Unpacked(p, bits[w..], n - k)
  }

  lemma {:induction false} NumberBound(p: Packing, text: string)
    requires IsText(p, text)
    ensures Number(p, text) < Arith.Power(|p.charset|, |text|)
  {
    if text != [] {
      var n, b := |text| - 1, |p.charset|;
      var init := Number(p, text[..n]);
      NumberBound(p, text[..n]);
      Arith.MulMonotone(b, init + 1, Arith.Power(b, n));
      Arith.MulSuccessor(b, init);
      Arith.Commute(init, b);
    }
  }

  lemma {:induction false} CharactersOfNumber(p: Packing, text: string)
    requires |p.charset| > 0 && IsText(p, text)
    ensures Characters(p, Number(p, text), |text|) == text
  {
    if text != [] {
      var n, b := |text| - 1, |p.charset|;
      var v, i := Number(p, text[..n]), IndexIn(p.charset, text[n]);
      CharactersOfNumber(p, text[..n]);
      Arith.Commute(v, b);
      Arith.DivideUnique(Number(p, text), b, v, i);
      assert text == text[..n] + [text[n]];
    }
  }

  lemma UnpackOneGroup(p: Packing, group: string, bits: seq<bool>, n: nat)
    requires GroupsFit(p) && IsText(p, group) && 0 < |group| == GroupLen(p, n)
    ensures Unpacked(p, BitsOf(Number(p, group), GroupBits(p, |group|)) + bits, n) ==
              group + Unpacked(p, bits, n - |group|)
  {
    hide GroupBits, Number;
    var v, w := Number(p, group), GroupBits(p, |group|);
    var all := BitsOf(v, w) + bits;
    OneGroupFits(p, group);
    ValueOfBits(v, w);
    CharactersOfNumber(p, group);
    assert all[..w] == BitsOf(v, w) && all[w..] == bits;
  }

  lemma UnpackStep(p: Packing, group: string, rest: string, tail: seq<bool>)
    requires GroupsFit(p) && IsText(p, group) && IsText(p, rest) && 0 < |group| == GroupLen(p, |group + rest|)
    requires Unpacked(p, Packed(p, rest) + tail, |rest|) == rest
    ensures IsText(p, group + rest)
    ensures Unpacked(p, Packed(p, group + rest) + tail, |group + rest|) == group + rest
  {
    hide GroupBits, Number, Packed, Unpacked, GroupLen;
    PackedOneGroup(p, group, rest);
    UnpackOneGroup(p, group, Packed(p, rest) + tail, |group + rest|);
    var bits := BitsOf(Number(p, group), GroupBits(p, |group|));
    assert (bits + Packed(p, rest)) + tail == bits + (Packed(p, rest) + tail);
  }

  /** Unpacking the groups returns the characters, leading zeros included, whatever follows. */
  lemma {:induction false} UnpackedPacked(p: Packing, text: string, tail: seq<bool>)
    requires GroupsFit(p) && IsText(p, text)
    ensures Unpacked(p, Packed(p, text) + tail, |text|) == text
    decreases |text|
  {
    if text != [] {
      var k := GroupLen(p, |text|);
      assert text == text[..k] + text[k..];
      hide Packed, Unpacked, GroupsFit;
      UnpackedPacked(p, text[k..], tail);
      UnpackStep(p, text[..k], text[k..], tail);
    }
  }

  lemma {:induction false} PackedConcat(p: Packing, a: string, b: string)
    requires p.group > 0 && IsText(p, a) && IsText(p, b) && |a| % p.group == 0
    ensures IsText(p, a + b) && Packed(p, a + b) == Packed(p, a) + Packed(p, b)
  {
    hide Packed, GroupBits, Number;
    if a == [] {
      PackedNothing(p);
      assert a + b == b;
    } else {
      var g := p.group;
      WholeGroup(|a|, g);
      var group, rest := a[..g], a[g..];
      PackedConcat(p, rest, b);
      PackedOneGroup(p, group, rest);
      PackedOneGroup(p, group, rest + b);
      assert a == group + rest && a + b == group + (rest + b);
    }
  }

  lemma PackedNothing(p: Packing)
    requires p.group > 0
    ensures Packed(p, []) == []
  {
  }

  lemma WholeGroup(n: nat, g: nat)
    requires g > 0 && n > 0 && n % g == 0
    ensures n >= g && (n - g) % g == 0
  {
    var q := n / g;
    assert n == g * q;
    Arith.MulMonotone(g, 1, q);
    Arith.Distribute(g, q, -1);
    Arith.DivideUnique(n - g, g, q - 1, 0);
  }

  // ---- Segment lengths

  /** calcSegmentBitLength. */
  function CalcSegmentBitLength(mode: Mode, numChars: nat): int {
    if numChars > INT16_MAX then LENGTH_OVERFLOW
    else
      var result := match mode
        case Numeric => (numChars * 10 + 2) / 3
        case Alphanumeric => (numChars * 11 + 1) / 2
        case Byte => numChars * 8
        case Kanji => numChars * 13
        case Eci => if numChars == 0 then 3 * 8 else INT16_MAX + 1;
      if result > INT16_MAX then LENGTH_OVERFLOW else result
  }

  /** Numeric and alphanumeric text takes exactly the announced number of bits. */
  lemma {:induction false} PackedNumericLength(text: string)
    requires IsText(NUMERIC, text)
    ensures |Packed(NUMERIC, text)| == (|text| * 10 + 2) / 3
  {
    if text != [] {
      PackedNumericLength(text[GroupLen(NUMERIC, |text|)..]);
    }
  }

  lemma {:induction false} PackedAlphanumericLength(text: string)
    requires IsText(ALPHANUMERIC, text)
    ensures |Packed(ALPHANUMERIC, text)| == (|text| * 11 + 1) / 2
  {
    if text != [] {
      PackedAlphanumericLength(text[GroupLen(ALPHANUMERIC, |text|)..]);
    }
  }

  // ---- Making segments

  /** qrcodegen_makeNumeric. */
  method MakeNumeric(digits: string, buf: array<byte>) returns (seg: Segment)
    requires IsText(NUMERIC, digits) && CalcSegmentBitLength(Numeric, |digits|) != LENGTH_OVERFLOW
    requires buf.Length >= (CalcSegmentBitLength(Numeric, |digits|) + 7) / 8
    modifies buf
    ensures seg == Segment(Numeric, |digits|, buf[..], CalcSegmentBitLength(Numeric, |digits|))
    ensures seg.Valid() && seg.DataBits() == Packed(NUMERIC, digits)
  {
    NumericFits();
    PackedNumericLength(digits);
    var bitLen := PackText(NUMERIC, digits, CalcSegmentBitLength(Numeric, |digits|), buf);
    seg := Segment(Numeric, |digits|, buf[..], bitLen);
    assert seg.DataBits() == Packed(NUMERIC, digits);
  }

  /** qrcodegen_makeAlphanumeric. */
  method MakeAlphanumeric(text: string, buf: array<byte>) returns (seg: Segment)
    requires IsText(ALPHANUMERIC, text) && CalcSegmentBitLength(Alphanumeric, |text|) != LENGTH_OVERFLOW
    requires buf.Length >= (CalcSegmentBitLength(Alphanumeric, |text|) + 7) / 8
    modifies buf
    ensures seg == Segment(Alphanumeric, |text|, buf[..], CalcSegmentBitLength(Alphanumeric, |text|))
    ensures seg.Valid() && seg.DataBits() == Packed(ALPHANUMERIC, text)
  {
    AlphanumericFits();
    PackedAlphanumericLength(text);
    var bitLen := PackText(ALPHANUMERIC, text, CalcSegmentBitLength(Alphanumeric, |text|), buf);
    seg := Segment(Alphanumeric, |text|, buf[..], bitLen);
    assert seg.DataBits() == Packed(ALPHANUMERIC, text);
  }

  /** memset: the first bytes of the buffer become zero. */
  method ClearBuffer(buf: array<byte>, bytes: nat)
    requires bytes <= buf.Length
    modifies buf
    ensures Contains(buf[..], [], bytes)
    ensures forall k | bytes <= k < buf.Length :: buf[k] == old(buf[k])
  {
    forall k | 0 <= k < bytes {
      buf[k] := 0;
    }
    forall i: nat | i < 8 * bytes
      ensures !BufferBit(buf[..], i)
    {
      ZeroBit(7 - i % 8);
    }
  }

  /** A text splits into whole groups, already packed, and a rest that starts with a group. */
  lemma NextGroup(p: Packing, text: string, start: nat, end: nat)
    requires GroupsFit(p) && IsText(p, text) && start < end <= |text| && start % p.group == 0
    requires end - start == GroupLen(p, |text| - start)
    ensures var w := GroupBits(p, end - start);
            && |Packed(p, text[..start])| + w <= |Packed(p, text)|
            && Number(p, text[start..end]) < Pow2(w) && w <= 16
            && Packed(p, text[..end]) == Packed(p, text[..start]) + BitsOf(Number(p, text[start..end]), w)
  {
    hide GroupBits, Number;
    var head, rest := text[..start], text[start..];
    assert text == head + rest && rest[..end - start] == text[start..end] && text[..end] == head + text[start..end];
    PackedConcat(p, head, rest);
    PackedConcat(p, head, text[start..end]);
    PackedOneGroup(p, text[start..end], rest[end - start..]);
    assert rest == text[start..end] + rest[end - start..];
    OneGroupFits(p, text[start..end]);
  }

  lemma PackedOneGroup(p: Packing, group: string, rest: string)
    requires p.group > 0 && IsText(p, group) && IsText(p, rest)
    requires 0 < |group| == GroupLen(p, |group| + |rest|)
    ensures IsText(p, group + rest)
    ensures Packed(p, group + rest) == BitsOf(Number(p, group), GroupBits(p, |group|)) + Packed(p, rest)
    ensures Packed(p, group) == BitsOf(Number(p, group), GroupBits(p, |group|))
  {
    hide GroupBits, Number;
    assert (group + rest)[..|group|] == group && (group + rest)[|group|..] == rest;
    assert group[..|group|] == group && group[|group|..] == [];
  }

  lemma OneGroupFits(p: Packing, group: string)
    requires GroupsFit(p) && IsText(p, group) && |group| <= p.group
    ensures Number(p, group) < Pow2(GroupBits(p, |group|)) && GroupBits(p, |group|) <= 16
  {
    NumberBound(p, group);
    Arith.MulMonotone(p.width, |group|, p.group);
  }

  /** The loop that makeNumeric and makeAlphanumeric share: accumulates a group, then appends it. */
  method PackText(p: Packing, text: string, expected: nat, buf: array<byte>) returns (bitLen: nat)
    requires GroupsFit(p) && IsText(p, text) && expected == |Packed(p, text)| && buf.Length >= (expected + 7) / 8
    modifies buf
    ensures bitLen == expected && Contains(buf[..], Packed(p, text), (expected + 7) / 8)
  {
    hide Contains, Packed, GroupsFit, Number;
    var bytes := (expected + 7) / 8;
    ClearBuffer(buf, bytes);
    bitLen := 0;
    var accumData: nat, accumCount: nat := 0, 0;
    PackStarts(p, text);
    for i := 0 to |text|
      invariant accumCount < p.group && accumCount <= i && (i - accumCount) % p.group == 0
      invariant accumData == Number(p, text[i - accumCount..i])
      invariant bitLen == |Packed(p, text[..i - accumCount])|
      invariant Contains(buf[..], Packed(p, text[..i - accumCount]), bytes)
    {
      NumberSnoc(p, text, i - accumCount, i);
      accumData := accumData * |p.charset| + IndexIn(p.charset, text[i]);
      accumCount := accumCount + 1;
      if accumCount == p.group {
        ghost var start := i + 1 - accumCount;
        NextGroup(p, text, start, i + 1);
        bitLen := AppendBits(accumData, GroupBits(p, accumCount), buf, bitLen, Packed(p, text[..start]), bytes);
        GroupEnds(start, p.group);
        accumData, accumCount := 0, 0;
        NumberOfNothing(p, text, i + 1);
      }
    }
    if accumCount > 0 {
      ghost var start := |text| - accumCount;
      NextGroup(p, text, start, |text|);
      bitLen := AppendBits(accumData, GroupBits(p, accumCount), buf, bitLen, Packed(p, text[..start]), bytes);
    }
    assert text[..|text|] == text;
  }

  lemma PackStarts(p: Packing, text: string)
    requires GroupsFit(p) && IsText(p, text)
    ensures p.group > 0 && 0 % p.group == 0 && Number(p, text[0..0]) == 0 && Packed(p, text[..0]) == []
  {
  }

  lemma NumberOfNothing(p: Packing, text: string, i: nat)
    requires IsText(p, text) && i <= |text|
    ensures Number(p, text[i..i]) == 0
  {
  }

  lemma NumberSnoc(p: Packing, text: string, start: nat, i: nat)
    requires IsText(p, text) && start <= i < |text|
    ensures Number(p, text[start..i + 1]) == Number(p, text[start..i]) * |p.charset| + IndexIn(p.charset, text[i])
  {
    assert text[start..i + 1][..i - start] == text[start..i];
  }

  lemma GroupEnds(start: nat, g: nat)
    requires g > 0 && start % g == 0
    ensures (start + g) % g == 0
  {
    var q := start / g;
    Arith.MulSuccessor(g, q);
    Arith.DivideUnique(start + g, g, q + 1, 0);
  }
}