/**
 * Number formatting: format.c. The texts are specified by what reading them back gives.
 */
module Format {
  import opened Words

  // ---- Decimal text ----

  function DecimalDigit(d: nat): char
    requires d < 10
  {
    ('0' as int + d) as char
  }

  function DecimalValue(c: char): nat {
    if IsDecimalDigit(c) then c as int - '0' as int else 0
  }

  predicate IsDecimalDigit(c: char) {
    '0' <= c <= '9'
  }

  function DecimalText(value: nat): (text: seq<char>)
    ensures text != []
  {
    if value < 10 then [DecimalDigit(value)] else DecimalText(value / 10) + [DecimalDigit(value % 10)]
  }

  /** Reading decimal digits, most significant first. */
  function ParseDecimal(text: seq<char>): nat {
    if text == [] then 0 else 10 * ParseDecimal(text[..|text| - 1]) + DecimalValue(text[|text| - 1])
  }

  /** Decimal digits with no superfluous leading zero. */
  predicate Canonical(text: seq<char>) {
    && text != []
    && (forall i | 0 <= i < |text| :: IsDecimalDigit(text[i]))
    && (|text| > 1 ==> text[0] != '0')
  }

  /** Printing then reading recovers the value, and prints no leading zero. */
  lemma {:induction false} DecimalRoundTrip(value: nat)
    ensures Canonical(DecimalText(value)) && ParseDecimal(DecimalText(value)) == value
    ensures value > 0 ==> DecimalText(value)[0] != '0'
  {
    if value >= 10 {
      DecimalRoundTrip(value / 10);
      assert DecimalText(value)[..|DecimalText(value)| - 1] == DecimalText(value / 10);
    } else {
      assert DecimalText(value)[..0] == [];
    }
  }

  /** Reading then printing recovers any canonical text, so decimal text is unique. */
  lemma {:induction false} CanonicalRoundTrip(text: seq<char>)
    requires Canonical(text)
    ensures DecimalText(ParseDecimal(text)) == text
    ensures text[0] != '0' ==> ParseDecimal(text) > 0
    decreases |text|
  {
    var n := |text| - 1;
    var front := text[..n];
    if n == 0 {
      assert ParseDecimal(front) == 0;
      assert text == [text[0]];
    } else {
      assert front[0] == text[0];
      CanonicalRoundTrip(front);
      assert text == front + [text[n]];
      var d := text[n] as int - '0' as int;
      assert ParseDecimal(text) / 10 == ParseDecimal(front) && ParseDecimal(text) % 10 == d;
    }
  }

  function Pow10(n: nat): (weight: nat)
    ensures weight > 0
  {
    if n == 0 then 1 else 10 * Pow10(n - 1)
  }

  lemma {:induction false} DecimalLength(value: nat, n: nat)
    requires value < Pow10(n) && n > 0
    ensures |DecimalText(value)| <= n
    decreases n
  {
    if value >= 10 {
      DecimalLength(value / 10, n - 1);
    }
  }

  lemma Weighed(base: nat, weight: nat, n: nat)
    ensures base * (weight * n) == (base * weight) * n
  {
  }

  /** Places weigh powers of 10, the leftmost the most. */
  lemma {:induction false} DecimalPlaces(high: seq<char>, low: seq<char>)
    ensures ParseDecimal(high + low) == Pow10(|low|) * ParseDecimal(high) + ParseDecimal(low)
    ensures forall c :: '0' <= c <= '9' ==> ParseDecimal([c]) == c as int - 48
    decreases |low|
  {
    if low == [] {
      assert high + low == high;
    } else {
      var front := low[..|low| - 1];
      DecimalPlaces(high, front);
      assert (high + low)[..|high + low| - 1] == high + front;
      Weighed(10, Pow10(|front|), ParseDecimal(high));
    }
    assert forall c: char :: [c][..0] == [];
  }

  lemma Pow10Bounds()
    ensures U32 <= Pow10(10) && U64 <= Pow10(20)
  {
    assert Pow10(5) == 100000;
    assert Pow10(10) == 100000 * 100000;
    assert Pow10(15) == 100000 * Pow10(10);
    assert Pow10(20) == 100000 * Pow10(15);
  }

  /**
   * The body kformat_uint32_decimal and kformat_uint64_decimal share, with a digit array of 10
   * and 20 elements. It succeeds exactly when text and NUL fit, and otherwise writes nothing.
   */
  method FormatDecimal(value: nat, capacity: nat, buffer: array?<char>, bufferSize: nat) returns (ok: bool)
    requires capacity > 0 && value < Pow10(capacity)
    requires buffer != null ==> bufferSize <= buffer.Length
    modifies buffer
    ensures ok <==> buffer != null && |DecimalText(value)| < bufferSize
    ensures ok ==> buffer[..] == DecimalText(value) + [NUL] + old(buffer[|DecimalText(value)| + 1..])
    ensures !ok && buffer != null ==> buffer[..] == old(buffer[..])
  {
    hide DecimalText, Pow10;
    ghost var text := DecimalText(value);
    LastDigit(value);
    if buffer == null || bufferSize == 0 {
      return false;
    }
    ghost var before := buffer[..];
    if value == 0 {
      if bufferSize < 2 {
        return false;
      }
      buffer[0] := '0';
      buffer[1] := NUL;
      assert buffer[..] == text + [NUL] + before[2..];
      return true;
    }
    var digits := new char[capacity](_ => NUL);
    var digitCount, outputIndex := 0, 0;
    var rest := value;
    while rest > 0
      modifies digits
      invariant digitCount <= capacity && rest < Pow10(capacity - digitCount)
      invariant |text| == digitCount + (if rest > 0 then |DecimalText(rest)| else 0)
      invariant rest > 0 ==> text[..|text| - digitCount] == DecimalText(rest)
      invariant forall k | 0 <= k < digitCount :: digits[k] == text[|text| - 1 - k]
    {
      LastDigit(rest);
      Pow10Step(rest, capacity - digitCount);
      digits[digitCount] := DecimalDigit(rest % 10);
      rest := rest / 10;
      digitCount := digitCount + 1;
    }
    if bufferSize <= digitCount {
      return false;
    }
    while digitCount > 0
      modifies buffer
      invariant 0 <= digitCount <= |text| && outputIndex == |text| - digitCount
      invariant forall k | 0 <= k < outputIndex :: buffer[k] == text[k]
      invariant forall k | outputIndex <= k < buffer.Length :: buffer[k] == before[k]
    {
      digitCount := digitCount - 1;
      buffer[outputIndex] := digits[digitCount];
      outputIndex := outputIndex + 1;
    }
    buffer[outputIndex] := NUL;
    assert buffer[..] == text + [NUL] + before[|text| + 1..];
    return true;
  }

  lemma Pow10Step(value: nat, n: nat)
    requires 0 < value < Pow10(n)
    ensures n > 0 && value / 10 < Pow10(n - 1)
  {
  }

  lemma LastDigit(value: nat)
    ensures var text := DecimalText(value);
      text[|text| - 1] == DecimalDigit(value % 10)
      && (value >= 10 ==> text[..|text| - 1] == DecimalText(value / 10))
      && (value < 10 ==> |text| == 1)
  {
  }

  /** kformat_uint32_decimal */
  method Uint32Decimal(value: uint32, buffer: array?<char>, bufferSize: nat) returns (ok: bool)
    requires buffer != null ==> bufferSize <= buffer.Length
    modifies buffer
    ensures ok <==> buffer != null && |DecimalText(value)| < bufferSize
    ensures ok ==> buffer[..] == DecimalText(value) + [NUL] + old(buffer[|DecimalText(value)| + 1..])
    ensures !ok && buffer != null ==> buffer[..] == old(buffer[..])
    ensures buffer != null && 11 <= bufferSize ==> ok
  {
    Pow10Bounds();
    DecimalLength(value, 10);
    ok := FormatDecimal(value, 10, buffer, bufferSize);
  }

  /** kformat_uint64_decimal */
  method Uint64Decimal(value: nat, buffer: array?<char>, bufferSize: nat) returns (ok: bool)
    requires value < U64
    requires buffer != null ==> bufferSize <= buffer.Length
    modifies buffer
    ensures ok <==> buffer != null && |DecimalText(value)| < bufferSize
    ensures ok ==> buffer[..] == DecimalText(value) + [NUL] + old(buffer[|DecimalText(value)| + 1..])
    ensures !ok && buffer != null ==> buffer[..] == old(buffer[..])
    ensures buffer != null && 21 <= bufferSize ==> ok
  {
    Pow10Bounds();
    DecimalLength(value, 20);
    ok := FormatDecimal(value, 20, buffer, bufferSize);
  }

  // ---- Hexadecimal text ----

  function HexDigit(d: nat): char
    requires d < 16
  {
    "0123456789ABCDEF"[d]
  }

  function HexValue(c: char): nat {
    if '0' <= c <= '9' then c as int - '0' as int
    else if 'A' <= c <= 'F' then c as int - 'A' as int + 10
    else 0
  }

  lemma HexDigitValue(d: nat)
    requires d < 16
    ensures HexValue(HexDigit(d)) == d
  {
  }

  function Pow16(n: nat): (weight: nat)
    ensures weight > 0
  {
    if n == 0 then 1 else 16 * Pow16(n - 1)
  }

  /** Reading hexadecimal digits, most significant first. */
  function ParseHex(text: seq<char>): nat {
    if text == [] then 0 else 16 * ParseHex(text[..|text| - 1]) + HexValue(text[|text| - 1])
  }

  /** Digit i of n as the code extracts it: shift right by 4 * (n - 1 - i), keep four bits. */
  function HexDigits(value: nat, n: nat): (text: seq<char>)
    ensures |text| == n
  {
    if n == 0 then [] else HexDigits(value / 16, n - 1) + [HexDigit(value % 16)]
  }

  lemma {:induction false} HexRoundTrip(value: nat, n: nat)
    requires value < Pow16(n)
    ensures ParseHex(HexDigits(value, n)) == value
    decreases n
  {
    if n > 0 {
      HexRoundTrip(value / 16, n - 1);
      HexDigitValue(value % 16);
      assert HexDigits(value, n)[..n - 1] == HexDigits(value / 16, n - 1);
    }
  }

  /** value >> (4 * k) */
  function ShiftRight4(value: nat, k: nat): nat {
    if k == 0 then value else ShiftRight4(value / 16, k - 1)
  }

  lemma {:induction false} HexDigitAt(value: nat, n: nat, i: nat)
    requires i < n
    ensures HexDigits(value, n)[i] == HexDigit(ShiftRight4(value, n - 1 - i) % 16)
    decreases n
  {
    if i < n - 1 {
      HexDigitAt(value / 16, n - 1, i);
    }
  }

  /** Places weigh powers of 16, the leftmost the most; the digits are 0 to 9 and A to F. */
  lemma {:induction false} HexPlaces(high: seq<char>, low: seq<char>)
    ensures ParseHex(high + low) == Pow16(|low|) * ParseHex(high) + ParseHex(low)
    ensures forall c :: '0' <= c <= '9' ==> ParseHex([c]) == c as int - 48
    ensures forall c :: 'A' <= c <= 'F' ==> ParseHex([c]) == c as int - 55
    decreases |low|
  {
    if low == [] {
      assert high + low == high;
    } else {
      var front := low[..|low| - 1];
      HexPlaces(high, front);
      assert (high + low)[..|high + low| - 1] == high + front;
      Weighed(16, Pow16(|front|), ParseHex(high));
    }
    assert forall c: char :: [c][..0] == [];
  }

  lemma Pow16Of8()
    ensures Pow16(8) == U32
  {
    assert Pow16(4) == 65536;
  }

  /** kformat_uint32_hex: ten characters that read back as the value, when eleven fit. */
  method Uint32Hex(value: uint32, buffer: array?<char>, bufferSize: nat) returns (ok: bool)
    requires buffer != null ==> bufferSize <= buffer.Length
    modifies buffer
    ensures ok <==> buffer != null && 11 <= bufferSize
    ensures ok ==> buffer[..2] == "0x" && ParseHex(buffer[2..10]) == value && buffer[2..10] == HexDigits(value, 8)
    ensures ok ==> buffer[10] == NUL && buffer[11..] == old(buffer[11..])
    ensures !ok && buffer != null ==> buffer[..] == old(buffer[..])
  {
    if buffer == null || bufferSize < 11 {
      return false;
    }
    buffer[0] := '0';
    buffer[1] := 'x';
    for i := 0 to 8
      invariant buffer[0] == '0' && buffer[1] == 'x' && buffer[11..] == old(buffer[11..])
      invariant forall k | 0 <= k < i :: buffer[2 + k] == HexDigits(value, 8)[k]
    {
      HexDigitAt(value, 8, i);
      var digit := ShiftRight4(value, 7 - i) % 16;
      buffer[2 + i] := HexDigit(digit);
    }
    buffer[10] := NUL;
    assert buffer[2..10] == HexDigits(value, 8);
    Pow16Of8();
    HexRoundTrip(value, 8);
    return true;
  }
}
