/**
 The decimal form of a card UID: hexadecimal digits are accumulated in a fixed array of 32 decimal digits.
 */
module UidDecimal {
  import Arith
  import opened Bits
  import opened Options

  /** ESP_OK, ESP_ERR_INVALID_ARG and ESP_ERR_INVALID_SIZE. */
  datatype Status = Ok | InvalidArg | InvalidSize

  const CAPACITY := 32

  // ---- Hexadecimal text

  predicate IsHex(c: char) {
    '0' <= c <= '9' || 'A' <= c <= 'F' || 'a' <= c <= 'f'
  }

  function Nibble(c: char): (n: nat)
    requires IsHex(c)
    ensures n < 16
  {
    if '0' <= c <= '9' then c as int - '0' as int
    else if 'A' <= c <= 'F' then c as int - 'A' as int + 10
    else c as int - 'a' as int + 10
  }

  ghost predicate AllHex(hex: string) {
    forall i | 0 <= i < |hex| :: IsHex(hex[i])
  }

  function HexValue(hex: string): nat
    requires AllHex(hex)
  {
    if hex == [] then 0 else 16 * HexValue(hex[..|hex| - 1]) + Nibble(hex[|hex| - 1])
  }

  /** A C string has no zero character before its end. */
  ghost predicate IsCString(s: string) {
    forall i | 0 <= i < |s| :: s[i] != '\0'
  }

  // ---- Decimal text

  ghost predicate AllDecimal(s: string) {
    forall i | 0 <= i < |s| :: '0' <= s[i] <= '9'
  }

  function DecimalValue(s: string): nat
    requires AllDecimal(s)
  {
    if s == [] then 0 else 10 * DecimalValue(s[..|s| - 1]) + (s[|s| - 1] as int - '0' as int)
  }

  /** Decimal digits without a superfluous leading zero. */
  ghost predicate Canonical(s: string) {
    AllDecimal(s) && s != [] && (|s| > 1 ==> s[0] != '0')
  }

  /** The decimal form of v. */
  ghost predicate IsDecimalOf(s: string, v: nat) {
    Canonical(s) && DecimalValue(s) == v
  }

  lemma {:induction false} CanonicalBounds(s: string)
    requires Canonical(s)
    ensures DecimalValue(s) < Arith.Power(10, |s|)
    ensures |s| > 1 ==> DecimalValue(s) >= Arith.Power(10, |s| - 1)
  {
    if |s| == 1 {
      assert DecimalValue(s[..0]) == 0 && Arith.Power(10, 1) == 10;
    } else {
      CanonicalBounds(s[..|s| - 1]);
      if |s| == 2 {
        assert DecimalValue(s[..1][..0]) == 0 && Arith.Power(10, 1) == 10;
      }
    }
  }

  lemma LastDigit(s: string)
    requires AllDecimal(s) && s != []
    ensures var n := |s| - 1;
            && DecimalValue(s) / 10 == DecimalValue(s[..n]) && DecimalValue(s) % 10 == s[n] as int - '0' as int
  {
  }

  lemma {:induction false} SameLengthSameText(s: string, t: string)
    requires AllDecimal(s) && AllDecimal(t) && |s| == |t| && DecimalValue(s) == DecimalValue(t)
    ensures s == t
  {
    hide DecimalValue;
    if s != [] {
      var n := |s| - 1;
      LastDigit(s);
      LastDigit(t);
      SameLengthSameText(s[..n], t[..n]);
      assert s == s[..n] + [s[n]] && t == t[..n] + [t[n]];
    }
  }

  /** A number has one decimal form. */
  lemma DecimalFormIsUnique(s: string, t: string, v: nat)
    requires IsDecimalOf(s, v) && IsDecimalOf(t, v)
    ensures s == t
  {
    CanonicalBounds(s);
    CanonicalBounds(t);
    if |s| < |t| {
      Arith.PowerMonotone(10, |s|, |t| - 1);
    } else if |t| < |s| {
      Arith.PowerMonotone(10, |t|, |s| - 1);
    } else {
      SameLengthSameText(s, t);
    }
  }

  // ---- The outcome

  /** What accumulating a text leads to: the first character that is no hexadecimal digit or makes the number
      too large decides. */
  datatype Scan = Number(v: nat) | NotHex | TooLarge

  ghost function ScanOf(hex: string): Scan {
    if hex == [] then Number(0)
    else
      var c := hex[|hex| - 1];
      match ScanOf(hex[..|hex| - 1])
      case NotHex => NotHex
      case TooLarge => TooLarge
      case Number(v) =>
        if !IsHex(c) then NotHex
        else if 16 * v + Nibble(c) >= Arith.Power(10, CAPACITY) then TooLarge
        else Number(16 * v + Nibble(c))
  }

  /** The buffer holds the digits of v and the terminating zero. */
  ghost predicate FitsBuffer(v: nat, size: nat) {
    size >= 2 && v < Arith.Power(10, size - 1)
  }

  ghost function Outcome(hex: string, size: nat): Status {
    if hex == [] then InvalidArg
    else
      match ScanOf(hex)
      case NotHex => InvalidArg
      case TooLarge => InvalidSize
      case Number(v) => if FitsBuffer(v, size) then Ok else InvalidSize
  }

  /** A hexadecimal text overflows the digits exactly when its value reaches 10^32. */
  lemma {:induction false} OverflowExactly(hex: string)
    requires AllHex(hex)
    ensures ScanOf(hex) == if HexValue(hex) >= Arith.Power(10, CAPACITY) then TooLarge else Number(HexValue(hex))
  {
    if hex != [] {
      OverflowExactly(hex[..|hex| - 1]);
    }
  }

  /** The conversion succeeds exactly for the hexadecimal texts whose value fits in the digits and in the buffer. */
  lemma OutcomeExactly(hex: string, size: nat)
    ensures Outcome(hex, size) == Ok <==>
              hex != [] && AllHex(hex) && HexValue(hex) < Arith.Power(10, 32) && FitsBuffer(HexValue(hex), size)
    ensures AllHex(hex) && hex != [] && Outcome(hex, size) != Ok ==> Outcome(hex, size) == InvalidSize
  {
    if AllHex(hex) {
      OverflowExactly(hex);
    } else {
      ScanOfOtherText(hex);
    }
  }

  lemma {:induction false} ScanOfOtherText(hex: string)
    requires !AllHex(hex)
    ensures !ScanOf(hex).Number?
  {
    if AllHex(hex[..|hex| - 1]) {
    } else {
      ScanOfOtherText(hex[..|hex| - 1]);
    }
  }

  lemma {:induction false} HexBound(hex: string)
    requires AllHex(hex)
    ensures HexValue(hex) < Arith.Power(16, |hex|)
  {
    if hex != [] {
      HexBound(hex[..|hex| - 1]);
    }
  }

  lemma LargestUid()
    ensures Arith.Power(16, 20) <= Arith.Power(10, 31) && Arith.Power(10, 31) <= Arith.Power(10, CAPACITY)
  {
    assert Arith.Power(16, 5) == 1048576;
    assert Arith.Power(16, 10) == 1048576 * 1048576;
    assert Arith.Power(16, 15) == 1048576 * 1048576 * 1048576;
    assert Arith.Power(10, 6) == 1000000;
    assert Arith.Power(10, 12) == 1000000 * 1000000;
    assert Arith.Power(10, 18) == 1000000 * 1000000 * 1000000;
    assert Arith.Power(10, 24) == 1000000 * 1000000 * 1000000 * 1000000;
  }

  const HEX_DIGITS := "0123456789ABCDEF"

  /** The k-th hexadecimal digit stands for k, and so does its small letter; there are no others. */
  lemma NibbleIs(c: char, k: nat)
    requires k < 16
    ensures IsHex(HEX_DIGITS[k]) && Nibble(HEX_DIGITS[k]) == k
    ensures k >= 10 ==> var small := (HEX_DIGITS[k] as int + 32) as char; IsHex(small) && Nibble(small) == k
    ensures IsHex(c) ==>
              c == HEX_DIGITS[Nibble(c)] || (Nibble(c) >= 10 && c as int == HEX_DIGITS[Nibble(c)] as int + 32)
  {
  }

  /** A number fits in the buffer exactly when its decimal form and a terminator do. */
  lemma FitsBufferExactly(v: nat, size: nat, s: string)
    requires IsDecimalOf(s, v)
    ensures FitsBuffer(v, size) <==> |s| + 1 <= size
  {
    hide Arith.Power;
    CanonicalBounds(s);
    if |s| + 1 <= size {
      Arith.PowerMonotone(10, |s|, size - 1);
    } else if size >= 2 {
      Arith.PowerMonotone(10, size - 1, |s| - 1);
    }
  }

  /** UIDs of at most ten bytes are always converted when the output buffer has 32 bytes. */
  lemma ShortUidsNeverFail(hex: string)
    requires hex != [] && AllHex(hex) && |hex| <= 20
    ensures Outcome(hex, 32) == Ok
  {
    hide Arith.Power;
    HexBound(hex);
    Arith.PowerMonotone(16, |hex|, 20);
    LargestUid();
    OutcomeExactly(hex, 32);
  }

  // ---- The digit array

  /** The number that decimal digits stand for, least significant first. */
  function LittleEndian(d: seq<byte>): nat {
    if d == [] then 0 else LittleEndian(d[..|d| - 1]) + Arith.Power(10, |d| - 1) * d[|d| - 1]
  }

  ghost predicate AreDigits(d: seq<byte>) {
    forall i | 0 <= i < |d| :: d[i] < 10
  }

  lemma {:induction false} LittleEndianBound(d: seq<byte>)
    requires AreDigits(d)
    ensures LittleEndian(d) < Arith.Power(10, |d|)
  {
    if d != [] {
      var n := |d| - 1;
      LittleEndianBound(d[..n]);
      Arith.MulMonotone(Arith.Power(10, n), d[n], 9);
    }
  }

  lemma LittleEndianSnoc(d: seq<byte>, x: byte)
    ensures LittleEndian(d + [x]) == LittleEndian(d) + Arith.Power(10, |d|) * x
  {
    assert (d + [x])[..|d|] == d;
  }

  lemma {:induction false} LittleEndianCons(d: seq<byte>)
    requires d != []
    ensures LittleEndian(d) == d[0] + 10 * LittleEndian(d[1..])
  {
    var n := |d| - 1;
    if n == 0 {
      assert d[..0] == [] && d[1..] == [] && Arith.Power(10, 0) == 1;
    } else {
      LittleEndianCons(d[..n]);
      assert d[..n][1..] == d[1..n] && d[1..] == d[1..n] + [d[n]];
      LittleEndianSnoc(d[1..n], d[n]);
      Arith.Reassociate(10, Arith.Power(10, n - 1), d[n]);
    }
  }

  /** Digits of v that do not start with a superfluous zero, least significant first. */
  ghost predicate Represents(digits: seq<byte>, count: nat, v: nat) {
    && 1 <= count <= |digits|
    && AreDigits(digits[..count])
    && LittleEndian(digits[..count]) == v
    && (count > 1 ==> digits[count - 1] != 0)
  }

  // ---- The algorithm

  /** One step of the inner loop on the running sum. */
  lemma CarryStep(low: nat, p: nat, d: nat, carry: nat, oldLow: nat, nibble: nat)
    requires low + p * carry == 16 * oldLow + nibble
    ensures (low + p * ((16 * d + carry) % 10)) + (10 * p) * ((16 * d + carry) / 10) == 16 * (oldLow + p * d) + nibble
  {
    var value := 16 * d + carry;
    assert value == 10 * (value / 10) + value % 10;
    Arith.Distribute(p, 10 * (value / 10), value % 10);
    Arith.Reassociate(p, 10, value / 10);
    Arith.Commute(10, p);
    Arith.Distribute(p, 16 * d, carry);
    Arith.Reassociate(p, 16, d);
    Arith.Commute(p, 16);
    Arith.Reassociate(16, p, d);
  }

  /** The inner loop: multiplies the digits by 16 and adds the nibble; the carry never exceeds 15. */
  method MultiplyAdd(digits: array<byte>, count: nat, nibble: nat, ghost v: nat) returns (carry: nat)
    requires Represents(digits[..], count, v) && nibble < 16
    modifies digits
    ensures AreDigits(digits[..count]) && carry <= 15
    ensures LittleEndian(digits[..count]) + Arith.Power(10, count) * carry == 16 * v + nibble
    ensures carry == 0 ==> count == 1
  {
    hide LittleEndian, Arith.Power;
    ghost var before := digits[..];
    carry := nibble;
    NoDigits();
    assert before[..0] == [] && digits[..0] == [];
    for i := 0 to count
      invariant carry <= 15 && AreDigits(digits[..i])
      invariant forall k | i <= k < digits.Length :: digits[k] == before[k]
      invariant LittleEndian(digits[..i]) + Arith.Power(10, i) * carry == 16 * LittleEndian(before[..i]) + nibble
      invariant i > 0 && before[i - 1] != 0 ==> carry != 0
    {
      var d: nat, low := digits[i], digits[..i];
      assert d < 10 by {
        assert before[..count][i] == before[i];
      }
      var value := d * 16 + carry;
      CarryStep(LittleEndian(low), Arith.Power(10, i), d, carry, LittleEndian(before[..i]), nibble);
      digits[i] := value % 10;
      carry := value / 10;
      assert digits[..i + 1] == low + [value % 10] && before[..i + 1] == before[..i] + [before[i]];
      LittleEndianSnoc(low, value % 10);
      LittleEndianSnoc(before[..i], before[i]);
      NextPower(i);
    }
    assert before[..count] == old(digits[..])[..count];
  }

  lemma NoDigits()
    ensures LittleEndian([]) == 0 && Arith.Power(10, 0) == 1
  {
  }

  lemma NextPower(i: nat)
    ensures Arith.Power(10, i + 1) == 10 * Arith.Power(10, i)
  {
  }

  lemma SplitCarry(p: nat, carry: nat)
    ensures p * carry == p * (carry % 10) + (10 * p) * (carry / 10)
  {
    assert carry == 10 * (carry / 10) + carry % 10;
    Arith.Distribute(p, 10 * (carry / 10), carry % 10);
    Arith.Reassociate(p, 10, carry / 10);
    Arith.Commute(10, p);
  }

  /** The while loop: appends the carry as digits, unless the array is full. */
  method AppendCarry(digits: array<byte>, count0: nat, carry0: nat, ghost v: nat) returns (overflow: bool, count: nat)
    requires digits.Length == CAPACITY && 1 <= count0 <= CAPACITY && AreDigits(digits[..count0])
    requires LittleEndian(digits[..count0]) + Arith.Power(10, count0) * carry0 == v
    requires carry0 == 0 ==> count0 == 1
    modifies digits
    ensures overflow <==> v >= Arith.Power(10, CAPACITY)
    ensures !overflow ==> 1 <= count <= CAPACITY && Represents(digits[..], count, v)
  {
    hide LittleEndian, Arith.Power;
    var carry := carry0;
    count := count0;
    while carry != 0
      invariant count0 <= count <= CAPACITY && AreDigits(digits[..count])
      invariant LittleEndian(digits[..count]) + Arith.Power(10, count) * carry == v
      invariant carry == 0 ==> Represents(digits[..], count, v)
      decreases carry
    {
      if count >= CAPACITY {
        Arith.MulMonotone(Arith.Power(10, count), 1, carry);
        return true, count;
      }
      ghost var low := digits[..count];
      SplitCarry(Arith.Power(10, count), carry);
      digits[count] := carry % 10;
      assert digits[..count + 1] == low + [carry % 10];
      LittleEndianSnoc(low, carry % 10);
      NextPower(count);
      count := count + 1;
      carry := carry / 10;
      NoCarry(Arith.Power(10, count), carry);
    }
    LittleEndianBound(digits[..count]);
    Arith.PowerMonotone(10, count, CAPACITY);
    overflow := false;
  }

  lemma NoCarry(p: nat, carry: nat)
    ensures carry == 0 ==> p * carry == 0
  {
  }

  /** The loop over the hexadecimal digits. */
  method Accumulate(hex: string, digits: array<byte>) returns (status: Status, digitCount: nat)
    requires digits.Length == CAPACITY && forall k | 0 <= k < CAPACITY :: digits[k] == 0
    modifies digits
    ensures status == match ScanOf(hex) case Number(_) => Ok case NotHex => InvalidArg case TooLarge => InvalidSize
    ensures status == Ok ==>
              AllHex(hex) && 1 <= digitCount <= CAPACITY && Represents(digits[..], digitCount, HexValue(hex))
  {
    hide LittleEndian, Arith.Power, Represents;
    digitCount := 1;
    ZeroIsRepresented(digits[..]);
    ghost var v := 0;
    assert hex[..0] == [];
    for p := 0 to |hex|
      invariant 1 <= digitCount <= CAPACITY && ScanOf(hex[..p]) == Number(v) && Represents(digits[..], digitCount, v)
    {
      assert hex[..p + 1][..p] == hex[..p];
      var c := hex[p];
      if !IsHex(c) {
        ScanEnds(hex, p + 1);
        return InvalidArg, digitCount;
      }
      var nibble := Nibble(c);
      var carry := MultiplyAdd(digits, digitCount, nibble, v);
      v := 16 * v + nibble;
      var overflow, count := AppendCarry(digits, digitCount, carry, v);
      if overflow {
        ScanEnds(hex, p + 1);
        return InvalidSize, digitCount;
      }
      digitCount := count;
    }
    assert hex[..|hex|] == hex;
    ScanIsValue(hex);
    return Ok, digitCount;
  }

  /** The buffer starts with the decimal form of v and a terminating zero, and is as before behind it. */
  ghost predicate Printed(buffer: string, before: string, size: nat, v: nat)
    requires size <= |buffer| == |before|
  {
    exists n :: 1 <= n < size && buffer[n] == '\0' && IsDecimalOf(buffer[..n], v) && buffer[n + 1..] == before[n + 1..]
  }

  /** uid_hex_to_decimal; a null text is no text. */
  method UidHexToDecimal(text: Option<string>, decimal: array?<char>, decimalSize: nat) returns (status: Status)
    requires text.Some? ==> IsCString(text.value)
    requires decimal != null ==> decimalSize <= decimal.Length
    modifies decimal
    ensures status == if text == None || decimal == null then InvalidArg else Outcome(text.value, decimalSize)
    ensures status == Ok ==>
              AllHex(text.value) && Printed(decimal[..], old(decimal[..]), decimalSize, HexValue(text.value))
    ensures status != Ok && decimal != null ==> decimal[..] == old(decimal[..])
  {
    hide LittleEndian, Arith.Power, Represents, ScanOf, IsDecimalOf, FitsBuffer, Printed;
    if text == None || text.value == [] || decimal == null {
      return InvalidArg;
    }
    var hex := text.value;
    var digits := new byte[CAPACITY](_ => 0);
    var digitCount;
    status, digitCount := Accumulate(hex, digits);
    if status != Ok {
      return;
    }
    ScanIsValue(hex);
    ghost var v, all := HexValue(hex), digits[..];
    FitsExactly(digits[..], digitCount, v, decimalSize);
    if digitCount + 1 > decimalSize {
      return InvalidSize;
    }
    ghost var before := decimal[..];
    for i := 0 to digitCount
      invariant digits[..] == all
      invariant forall k | 0 <= k < i :: decimal[k] as int == '0' as int + digits[digitCount - 1 - k]
      invariant forall k | digitCount <= k < decimal.Length :: decimal[k] == before[k]
    {
      DigitIsSmall(all, digitCount, v, digitCount - 1 - i);
      decimal[i] := ('0' as int + digits[digitCount - 1 - i]) as char;
    }
    decimal[digitCount] := '\0';
    PrintedDigits(all, digitCount, v, decimal[..digitCount]);
    assert decimal[..][..digitCount] == decimal[..digitCount];
    PrintedAt(decimal[..], before, decimalSize, v, digitCount);
  }

  lemma PrintedAt(buffer: string, before: string, size: nat, v: nat, n: nat)
    requires size <= |buffer| == |before| && 1 <= n < size && buffer[n] == '\0' && IsDecimalOf(buffer[..n], v)
    requires forall k | n < k < |buffer| :: buffer[k] == before[k]
    ensures Printed(buffer, before, size, v)
  {
  }

  lemma ZeroIsRepresented(digits: seq<byte>)
    requires |digits| >= 1 && digits[0] == 0
    ensures Represents(digits, 1, 0) && LittleEndian([]) == 0
  {
    assert digits[..1][..0] == [];
  }

  lemma RepresentedBounds(digits: seq<byte>, count: nat, v: nat)
    requires Represents(digits, count, v)
    ensures 1 <= count <= |digits|
    ensures v < Arith.Power(10, count) && (count > 1 ==> Arith.Power(10, count - 1) <= v)
  {
    LittleEndianBound(digits[..count]);
    if count > 1 {
      Arith.MulMonotone(Arith.Power(10, count - 1), 1, digits[count - 1]);
    }
  }

  lemma DigitIsSmall(digits: seq<byte>, count: nat, v: nat, i: nat)
    requires Represents(digits, count, v) && i < count
    ensures i < |digits| && digits[i] < 10
  {
    assert digits[..count][i] == digits[i];
  }

  lemma FitsExactly(digits: seq<byte>, count: nat, v: nat, size: nat)
    requires Represents(digits, count, v)
    ensures FitsBuffer(v, size) <==> count + 1 <= size
  {
    hide Represents;
    RepresentedBounds(digits, count, v);
    if count + 1 <= size {
      Arith.PowerMonotone(10, count, size - 1);
    } else if size >= 2 {
      Arith.PowerMonotone(10, size - 1, count - 1);
    }
  }

  lemma {:induction false} ReversedDigits(s: string, d: seq<byte>)
    requires |s| == |d| && AllDecimal(s)
    requires forall k | 0 <= k < |s| :: s[k] as int == '0' as int + d[|d| - 1 - k]
    ensures DecimalValue(s) == LittleEndian(d)
  {
    if s != [] {
      ReversedDigits(s[..|s| - 1], d[1..]);
      LittleEndianCons(d);
    }
  }

  lemma PrintedDigits(digits: seq<byte>, count: nat, v: nat, s: string)
    requires Represents(digits, count, v) && |s| == count <= |digits|
    requires forall k | 0 <= k < count :: s[k] as int == '0' as int + digits[count - 1 - k]
    ensures IsDecimalOf(s, v)
  {
    forall k | 0 <= k < count
      ensures '0' <= s[k] <= '9'
    {
      DigitIsSmall(digits, count, v, count - 1 - k);
    }
    ReversedDigits(s, digits[..count]);
  }

  /** Once a prefix has failed, the rest of the text does not matter. */
  lemma {:induction false} ScanEnds(hex: string, n: nat)
    requires n <= |hex| && !ScanOf(hex[..n]).Number?
    ensures ScanOf(hex) == ScanOf(hex[..n])
    decreases |hex|
  {
    if n == |hex| {
      assert hex[..n] == hex;
    } else {
      assert hex[..|hex| - 1][..n] == hex[..n];
      ScanEnds(hex[..|hex| - 1], n);
    }
  }

  lemma ScanIsValue(hex: string)
    requires ScanOf(hex).Number?
    ensures AllHex(hex) && ScanOf(hex) == Number(HexValue(hex))
  {
    if AllHex(hex) {
      OverflowExactly(hex);
    } else {
      ScanOfOtherText(hex);
    }
  }
}
