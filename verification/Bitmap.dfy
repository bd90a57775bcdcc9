/**
 * Bit-packed frame bitmaps: 32 frames to a word.
 *
 * A word is a number below 2^32, and |, & and ~ are defined on binary digits, so that every
 * proof here is an induction over digits. The rest of the project reasons about the set of
 * frames whose bit is one; this module is the only place that looks inside a word.
 */
module Bitmap {
  import opened Words

  const WORD_BITS: nat := 32

  type word = uint32

  // ---- Bitwise operations ----

  function Or(a: nat, b: nat): nat
    decreases a + b
  {
    if a == 0 && b == 0 then 0 else 2 * Or(a / 2, b / 2) + (if a % 2 == 1 || b % 2 == 1 then 1 else 0)
  }

  function And(a: nat, b: nat): nat
    decreases a + b
  {
    if a == 0 && b == 0 then 0 else 2 * And(a / 2, b / 2) + (if a % 2 == 1 && b % 2 == 1 then 1 else 0)
  }

  function Not(a: word): word {
    U32_MAX - a
  }

  /** 1 shifted left k places. */
  function Shift1(k: nat): (mask: nat)
    ensures mask > 0
  {
    if k == 0 then 1 else 2 * Shift1(k - 1)
  }

  predicate Digit(w: nat, k: nat)
    decreases k
  {
    if k == 0 then w % 2 == 1 else Digit(w / 2, k - 1)
  }

  lemma {:induction false} OrDigit(a: nat, b: nat, k: nat)
    ensures Digit(Or(a, b), k) <==> Digit(a, k) || Digit(b, k)
    decreases k
  {
    assert Or(a, b) / 2 == Or(a / 2, b / 2);
    if k > 0 {
      OrDigit(a / 2, b / 2, k - 1);
    }
  }

  lemma {:induction false} AndDigit(a: nat, b: nat, k: nat)
    ensures Digit(And(a, b), k) <==> Digit(a, k) && Digit(b, k)
    decreases k
  {
    assert And(a, b) / 2 == And(a / 2, b / 2);
    if k > 0 {
      AndDigit(a / 2, b / 2, k - 1);
    }
  }

  lemma {:induction false} ComplementDigit(a: nat, n: nat, k: nat)
    requires a < Shift1(n) && k < n
    ensures Digit(Shift1(n) - 1 - a, k) <==> !Digit(a, k)
    decreases n
  {
    assert (Shift1(n) - 1 - a) / 2 == Shift1(n - 1) - 1 - a / 2;
    if k > 0 {
      ComplementDigit(a / 2, n - 1, k - 1);
    }
  }

  lemma {:induction false} ShiftDigit(m: nat, k: nat)
    ensures Digit(Shift1(m), k) <==> k == m
    decreases k
  {
    if k > 0 {
      if m == 0 {
        ZeroDigit(k - 1);
      } else {
        ShiftDigit(m - 1, k - 1);
      }
    }
  }

  lemma {:induction false} ZeroDigit(k: nat)
    ensures !Digit(0, k)
  {
    if k > 0 {
      ZeroDigit(k - 1);
    }
  }

  /** Digits below n determine a number below 2^n. */
  lemma {:induction false} DigitsDetermine(a: nat, b: nat, n: nat)
    requires a < Shift1(n) && b < Shift1(n)
    requires forall k: nat | k < n :: Digit(a, k) <==> Digit(b, k)
    ensures a == b
    decreases n
  {
    if n > 0 {
      forall k: nat | k < n - 1
        ensures Digit(a / 2, k) <==> Digit(b / 2, k)
      {
        assert Digit(a, k + 1) <==> Digit(b, k + 1);
      }
      DigitsDetermine(a / 2, b / 2, n - 1);
      assert Digit(a, 0) <==> Digit(b, 0);
    }
  }

  lemma {:induction false} AndZero(a: nat)
    ensures And(a, 0) == 0
  {
    if a > 0 {
      AndZero(a / 2);
    }
  }

  /** The bit test: a word meets a one-bit mask exactly when it has that digit. */
  lemma {:induction false} AndShift(w: nat, k: nat)
    ensures And(w, Shift1(k)) != 0 <==> Digit(w, k)
    decreases k
  {
    if k == 0 {
      AndZero(w / 2);
    } else {
      AndShift(w / 2, k - 1);
    }
  }

  /** The top digit of a (k + 1)-digit number. */
  lemma {:induction false} TopDigit(x: nat, k: nat)
    requires x < Shift1(k + 1)
    ensures Digit(x, k) <==> x >= Shift1(k)
    decreases k
  {
    if k > 0 {
      TopDigit(x / 2, k - 1);
    }
  }

  lemma {:induction false} OrBelow(a: nat, b: nat, n: nat)
    requires a < Shift1(n) && b < Shift1(n)
    ensures Or(a, b) < Shift1(n) && And(a, b) < Shift1(n)
    decreases n
  {
    if n > 0 {
      OrBelow(a / 2, b / 2, n - 1);
    }
  }

  lemma {:induction false} ShiftIncreases(k: nat, n: nat)
    requires k < n
    ensures Shift1(k) < Shift1(n)
    decreases n
  {
    if k < n - 1 {
      ShiftIncreases(k, n - 1);
    }
  }

  // ---- Masks of low digits ----

  lemma AndOdd(x: nat, m: nat)
    ensures And(x, 2 * m + 1) == 2 * And(x / 2, m) + x % 2
  {
    assert (2 * m + 1) / 2 == m;
  }

  lemma AndEven(x: nat, m: nat)
    ensures And(x, 2 * m) == 2 * And(x / 2, m)
  {
    assert (2 * m) / 2 == m;
  }

  lemma OrOdd(x: nat, m: nat)
    ensures Or(x, 2 * m + 1) == 2 * Or(x / 2, m) + 1
  {
    assert (2 * m + 1) / 2 == m;
  }

  lemma AndOnes(x: nat, k: nat)
    requires k > 0
    ensures And(x, Shift1(k) - 1) == 2 * And(x / 2, Shift1(k - 1) - 1) + x % 2
  {
    hide And;
    AndOdd(x, Shift1(k - 1) - 1);
  }

  lemma DoubleShift(quotient: nat, k: nat)
    requires k > 0
    ensures quotient * Shift1(k) == 2 * (quotient * Shift1(k - 1))
  {
  }

  /** A mask of k ones keeps the remainder modulo 2^k. */
  lemma {:induction false} LowDigits(x: nat, k: nat) returns (quotient: nat)
    ensures x == quotient * Shift1(k) + And(x, Shift1(k) - 1) && And(x, Shift1(k) - 1) < Shift1(k)
    decreases k
  {
    hide And;
    if k == 0 {
      AndZero(x);
      quotient := x;
    } else {
      quotient := LowDigits(x / 2, k - 1);
      AndOnes(x, k);
      DoubleShift(quotient, k);
    }
  }

  /** Masking with all n digits changes nothing. */
  lemma {:induction false} AllDigits(x: nat, n: nat)
    requires x < Shift1(n)
    ensures And(x, Shift1(n) - 1) == x
    decreases n
  {
    if n == 0 {
      AndZero(x);
    } else {
      AllDigits(x / 2, n - 1);
      AndOnes(x, n);
    }
  }

  lemma AndHighOnes(x: nat, k: nat, n: nat)
    requires 0 < k <= n && Shift1(k) <= Shift1(n) && Shift1(k - 1) <= Shift1(n - 1)
    ensures And(x, Shift1(n) - Shift1(k)) == 2 * And(x / 2, Shift1(n - 1) - Shift1(k - 1))
  {
    hide And;
    AndEven(x, Shift1(n - 1) - Shift1(k - 1));
  }

  lemma ShiftMonotone(k: nat, n: nat)
    requires k <= n
    ensures Shift1(k) <= Shift1(n)
  {
    if k < n {
      ShiftIncreases(k, n);
    }
  }

  lemma HalfBelow(x: nat, n: nat)
    requires n > 0 && x < Shift1(n)
    ensures x / 2 < Shift1(n - 1)
  {
  }

  /** x & ~(2^k - 1) in n-digit arithmetic is x without its k low digits. */
  lemma {:induction false} HighDigits(x: nat, k: nat, n: nat)
    requires k <= n && x < Shift1(n)
    ensures Shift1(k) <= Shift1(n)
    ensures And(x, Shift1(n) - Shift1(k)) + And(x, Shift1(k) - 1) == x
    decreases k
  {
    hide And, Shift1;
    ShiftMonotone(k, n);
    if k == 0 {
      ShiftZero();
      AllDigits(x, n);
      AndZero(x);
    } else {
      ShiftMonotone(k - 1, n - 1);
      HalfBelow(x, n);
      HighDigits(x / 2, k - 1, n - 1);
      AndHighOnes(x, k, n);
      AndOnes(x, k);
    }
  }

  lemma {:induction false} OrZero(x: nat)
    ensures Or(x, 0) == x
  {
    if x > 0 {
      OrZero(x / 2);
    }
  }

  lemma OrOnes(x: nat, k: nat)
    requires k > 0
    ensures Or(x, Shift1(k) - 1) == 2 * Or(x / 2, Shift1(k - 1) - 1) + 1
  {
    hide Or;
    OrOdd(x, Shift1(k - 1) - 1);
  }

  /** Setting the k low digits replaces them by ones. */
  lemma {:induction false} OrLowDigits(x: nat, k: nat)
    ensures Or(x, Shift1(k) - 1) == x - And(x, Shift1(k) - 1) + Shift1(k) - 1
    decreases k
  {
    hide And, Or;
    if k == 0 {
      OrZero(x);
      AndZero(x);
    } else {
      OrLowDigits(x / 2, k - 1);
      AndOnes(x, k);
      OrOnes(x, k);
    }
  }

  lemma AndAllButOne(x: nat, k: nat, n: nat)
    requires 0 < k < n && Shift1(k) < Shift1(n) && Shift1(k - 1) < Shift1(n - 1)
    ensures And(x, Shift1(n) - 1 - Shift1(k)) == 2 * And(x / 2, Shift1(n - 1) - 1 - Shift1(k - 1)) + x % 2
  {
    hide And;
    AndOdd(x, Shift1(n - 1) - 1 - Shift1(k - 1));
  }

  /** Clearing digit k of a (k + 1)-digit number keeps its k low digits. */
  lemma {:induction false} ClearTop(x: nat, k: nat, n: nat)
    requires k < n && x < Shift1(k + 1)
    ensures Shift1(k) < Shift1(n) && And(x, Shift1(n) - 1 - Shift1(k)) == And(x, Shift1(k) - 1)
    decreases k
  {
    hide And, Shift1;
    ShiftIncreases(k, n);
    if k == 0 {
      ClearBottom(x, n);
    } else {
      HalfBelow(x, k + 1);
      ClearTop(x / 2, k - 1, n - 1);
      AndAllButOne(x, k, n);
      AndOnes(x, k);
    }
  }

  lemma ShiftZero()
    ensures Shift1(0) == 1
  {
  }

  lemma ClearBottom(x: nat, n: nat)
    requires 0 < n && x < Shift1(1)
    ensures And(x, Shift1(n) - 1 - Shift1(0)) == And(x, Shift1(0) - 1)
  {
    hide And;
    AndEven(x, Shift1(n - 1) - 1);
    AndZero(x);
    AndZeroLeft(Shift1(n - 1) - 1);
  }

  lemma {:induction false} AndZeroLeft(b: nat)
    ensures And(0, b) == 0
  {
    if b > 0 {
      AndZeroLeft(b / 2);
    }
  }

  lemma WordRange()
    ensures Shift1(WORD_BITS) == U32
  {
    assert Shift1(8) == 0x100;
    assert Shift1(16) == 0x1_0000;
    assert Shift1(24) == 0x100_0000;
    assert Shift1(32) == 0x1_0000_0000;
  }

  // ---- Words ----

  function WordIndex(frame: nat): nat {
    frame / WORD_BITS
  }

  function BitMask(frame: nat): (mask: word) {
    WordRange();
    ShiftIncreases(frame % WORD_BITS, WORD_BITS);
    Shift1(frame % WORD_BITS)
  }

  function OrWord(a: word, b: word): word {
    WordRange();
    OrBelow(a, b, WORD_BITS);
    Or(a, b)
  }

  function AndWord(a: word, b: word): word {
    WordRange();
    OrBelow(a, b, WORD_BITS);
    And(a, b)
  }

  lemma MaskedWord(w: word, frame: nat, k: nat)
    requires k < WORD_BITS
    ensures AndWord(w, BitMask(frame)) != 0 <==> Digit(w, frame % WORD_BITS)
    ensures Digit(OrWord(w, BitMask(frame)), k) <==> k == frame % WORD_BITS || Digit(w, k)
    ensures Digit(AndWord(w, Not(BitMask(frame))), k) <==> k != frame % WORD_BITS && Digit(w, k)
  {
    var m := frame % WORD_BITS;
    WordRange();
    AndShift(w, m);
    OrDigit(w, BitMask(frame), k);
    AndDigit(w, Not(BitMask(frame)), k);
    ShiftDigit(m, k);
    ComplementDigit(BitMask(frame), WORD_BITS, k);
  }

  // ---- The whole bitmap ----

  predicate IsSet(words: seq<word>, frame: nat)
    requires frame < WORD_BITS * |words|
  {
    AndWord(words[WordIndex(frame)], BitMask(frame)) != 0
  }

  /** The frames whose bit is one. */
  ghost function Members(words: seq<word>): set<nat> {
    set frame: nat | frame < WORD_BITS * |words| && IsSet(words, frame)
  }

  function WithBit(words: seq<word>, frame: nat): (r: seq<word>)
    requires frame < WORD_BITS * |words|
    ensures |r| == |words|
  {
    words[WordIndex(frame) := OrWord(words[WordIndex(frame)], BitMask(frame))]
  }

  function WithoutBit(words: seq<word>, frame: nat): (r: seq<word>)
    requires frame < WORD_BITS * |words|
    ensures |r| == |words|
  {
    words[WordIndex(frame) := AndWord(words[WordIndex(frame)], Not(BitMask(frame)))]
  }

  lemma SetBitAt(words: seq<word>, frame: nat, other: nat)
    requires frame < WORD_BITS * |words| && other < WORD_BITS * |words|
    ensures IsSet(WithBit(words, frame), other) <==> other == frame || IsSet(words, other)
    ensures IsSet(WithoutBit(words, frame), other) <==> other != frame && IsSet(words, other)
  {
    hide OrWord, AndWord, BitMask, Not, Digit;
    var w, k := words[WordIndex(frame)], other % WORD_BITS;
    MaskedWord(w, frame, k);
    MaskedWord(words[WordIndex(other)], other, k);
    MaskedWord(OrWord(w, BitMask(frame)), other, k);
    MaskedWord(AndWord(w, Not(BitMask(frame))), other, k);
  }

  /** Setting or clearing one bit adds or removes exactly that frame. */
  lemma SetBitMembers(words: seq<word>, frame: nat)
    requires frame < WORD_BITS * |words|
    ensures Members(WithBit(words, frame)) == Members(words) + {frame}
    ensures Members(WithoutBit(words, frame)) == Members(words) - {frame}
  {
    hide IsSet, WithBit, WithoutBit;
    forall other: nat | other < WORD_BITS * |words|
      ensures IsSet(WithBit(words, frame), other) <==> other == frame || IsSet(words, other)
      ensures IsSet(WithoutBit(words, frame), other) <==> other != frame && IsSet(words, other)
    {
      SetBitAt(words, frame, other);
    }
  }

  /** The member set loses nothing: it determines every word. */
  lemma MembersDetermineWords(a: seq<word>, b: seq<word>)
    requires |a| == |b| && Members(a) == Members(b)
    ensures a == b
  {
    forall w | 0 <= w < |a|
      ensures a[w] == b[w]
    {
      forall k: nat | k < WORD_BITS
        ensures Digit(a[w], k) <==> Digit(b[w], k)
      {
        DigitFromMembers(a, b, w, k);
      }
      WordRange();
      DigitsDetermine(a[w], b[w], WORD_BITS);
    }
  }

  lemma DigitFromMembers(a: seq<word>, b: seq<word>, w: nat, k: nat)
    requires |a| == |b| && Members(a) == Members(b) && w < |a| && k < WORD_BITS
    ensures Digit(a[w], k) <==> Digit(b[w], k)
  {
    hide AndWord, BitMask, Digit;
    var frame := WORD_BITS * w + k;
    assert WordIndex(frame) == w && frame % WORD_BITS == k;
    MaskedWord(a[w], frame, k);
    MaskedWord(b[w], frame, k);
    assert frame in Members(a) <==> frame in Members(b);
  }

  /** Words of all ones, and of all zeros. */
  lemma UniformMembers(words: seq<word>)
    ensures (forall w | 0 <= w < |words| :: words[w] == 0) ==> Members(words) == {}
    ensures (forall w | 0 <= w < |words| :: words[w] == U32_MAX) ==> forall frame: nat :: frame in Members(words) <==> frame < WORD_BITS * |words|
  {
    forall frame: nat | frame < WORD_BITS * |words|
      ensures words[WordIndex(frame)] == 0 ==> !IsSet(words, frame)
      ensures words[WordIndex(frame)] == U32_MAX ==> IsSet(words, frame)
    {
      UniformDigit(words[WordIndex(frame)], frame);
    }
  }

  lemma UniformDigit(w: word, frame: nat)
    ensures w == 0 ==> AndWord(w, BitMask(frame)) == 0
    ensures w == U32_MAX ==> AndWord(w, BitMask(frame)) != 0
  {
    var k := frame % WORD_BITS;
    WordRange();
    MaskedWord(w, frame, k);
    ZeroDigit(k);
    ComplementDigit(0, WORD_BITS, k);
  }

  // ---- The same on arrays ----

  method TestBit(words: array<word>, frame: nat) returns (isSet: bool)
    requires frame < WORD_BITS * words.Length
    ensures isSet <==> frame in Members(words[..])
  {
    isSet := AndWord(words[WordIndex(frame)], BitMask(frame)) != 0;
    assert words[..][WordIndex(frame)] == words[WordIndex(frame)];
  }

  method SetBit(words: array<word>, frame: nat)
    requires frame < WORD_BITS * words.Length
    modifies words
    ensures Members(words[..]) == old(Members(words[..])) + {frame}
  {
    SetBitMembers(words[..], frame);
    words[WordIndex(frame)] := OrWord(words[WordIndex(frame)], BitMask(frame));
    assert words[..] == WithBit(old(words[..]), frame);
  }

  method ClearBit(words: array<word>, frame: nat)
    requires frame < WORD_BITS * words.Length
    modifies words
    ensures Members(words[..]) == old(Members(words[..])) - {frame}
  {
    SetBitMembers(words[..], frame);
    words[WordIndex(frame)] := AndWord(words[WordIndex(frame)], Not(BitMask(frame)));
    assert words[..] == WithoutBit(old(words[..]), frame);
  }
}
