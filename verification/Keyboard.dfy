/**
 * The PS/2 keyboard driver: keyboard.c. Set 1 scancodes become characters under the
 * Shift and Caps Lock state.
 */
module Keyboard {
  import opened Words
  import opened Bitmap

  const RELEASED: nat := 0x80
  const LEFT_SHIFT: nat := 0x2A
  const RIGHT_SHIFT: nat := 0x36
  const CAPS_LOCK: nat := 0x3A

  // ---- The two translation tables ----

  function NormalMap(code: nat): char
    requires code < 128
  {
    if 0x02 <= code <= 0x0D then "1234567890-="[code - 0x02]
    else if code == 0x0E then BACKSPACE
    else if code == 0x0F then '\t'
    else if 0x10 <= code <= 0x1B then "qwertyuiop[]"[code - 0x10]
    else if code == 0x1C then '\n'
    else if 0x1E <= code <= 0x29 then "asdfghjkl;'`"[code - 0x1E]
    else if 0x2B <= code <= 0x35 then "\\zxcvbnm,./"[code - 0x2B]
    else if code == 0x39 then ' '
    else NUL
  }

  function ShiftMap(code: nat): char
    requires code < 128
  {
    if 0x02 <= code <= 0x0D then "!@#$%^&*()_+"[code - 0x02]
    else if code == 0x0E then BACKSPACE
    else if code == 0x0F then '\t'
    else if 0x10 <= code <= 0x1B then "QWERTYUIOP{}"[code - 0x10]
    else if code == 0x1C then '\n'
    else if 0x1E <= code <= 0x29 then "ASDFGHJKL:\"~"[code - 0x1E]
    else if 0x2B <= code <= 0x35 then "|ZXCVBNM<>?"[code - 0x2B]
    else if code == 0x39 then ' '
    else NUL
  }

  /** keyboard_is_letter_scancode */
  predicate IsLetterScancode(code: nat) {
    0x10 <= code <= 0x19 || 0x1E <= code <= 0x26 || 0x2C <= code <= 0x32
  }

  predicate IsShift(code: int) {
    code == LEFT_SHIFT || code == RIGHT_SHIFT
  }

  /** The static modifier flags. */
  datatype Modifiers = Modifiers(shift: bool, caps: bool)

  const RELEASED_MODIFIERS: Modifiers := Modifiers(false, false)

  /** keyboard_translate_scancode */
  function Translate(m: Modifiers, code: nat): char {
    if code >= 128 then NUL
    else if IsLetterScancode(code) then (if m.shift != m.caps then ShiftMap(code) else NormalMap(code))
    else if m.shift then ShiftMap(code)
    else NormalMap(code)
  }

  /** The code below the release bit: raw & ~0x80. */
  function ScancodeOf(raw: nat): (code: nat)
    requires raw < 256
    ensures code == raw % RELEASED
  {
    ReleaseBit(raw);
    And(raw, U32_MAX - RELEASED)
  }

  /** Bit 7 of a scancode byte tells release from press; the seven low bits are the key. */
  lemma ReleaseBit(raw: nat)
    requires raw < 256
    ensures And(raw, RELEASED) != 0 <==> raw >= RELEASED
    ensures And(raw, U32_MAX - RELEASED) == raw % RELEASED
  {
    hide And, Digit;
    assert Shift1(7) == RELEASED && Shift1(8) == 256;
    WordRange();
    AndShift(raw, 7);
    TopDigit(raw, 7);
    ClearTop(raw, 7, 32);
    var quotient := LowDigits(raw, 7);
  }

  /** One raw scancode: the next modifier state and the character produced, if any. */
  function Press(m: Modifiers, raw: nat): (Modifiers, Option<char>)
    requires raw < 256
  {
    var code := ScancodeOf(raw);
    if And(raw, RELEASED) != 0 then (if IsShift(code) then m.(shift := false) else m, None)
    else if IsShift(code) then (m.(shift := true), None)
    else if code == CAPS_LOCK then (m.(caps := !m.caps), None)
    else if Translate(m, code) == NUL then (m, None)
    else (m, Some(Translate(m, code)))
  }

  predicate ValidScancodes(raws: seq<nat>) {
    forall i | 0 <= i < |raws| :: raws[i] < 256
  }

  function PressAll(m: Modifiers, raws: seq<nat>): Modifiers
    requires ValidScancodes(raws)
    decreases |raws|
  {
    if raws == [] then m
    else
      assert forall i | 0 <= i < |raws| - 1 :: raws[..|raws| - 1][i] == raws[i];
      Press(PressAll(m, raws[..|raws| - 1]), raws[|raws| - 1]).0
  }

  /** The characters a run of scancodes produces. */
  function TypedAll(m: Modifiers, raws: seq<nat>): seq<char>
    requires ValidScancodes(raws)
    decreases |raws|
  {
    if raws == [] then []
    else
      assert forall i | 0 <= i < |raws| - 1 :: raws[..|raws| - 1][i] == raws[i];
      var front := raws[..|raws| - 1];
      match Press(PressAll(m, front), raws[|raws| - 1]).1
      case None => TypedAll(m, front)
      case Some(c) => TypedAll(m, front) + [c]
  }

  lemma TypedOneMore(m: Modifiers, raws: seq<nat>, raw: nat)
    requires ValidScancodes(raws) && raw < 256
    ensures ValidScancodes(raws + [raw])
    ensures PressAll(m, raws + [raw]) == Press(PressAll(m, raws), raw).0
    ensures TypedAll(m, raws + [raw]) == TypedAll(m, raws) + (match Press(PressAll(m, raws), raw).1 case None => [] case Some(c) => [c])
  {
    hide Press;
    assert (raws + [raw])[..|raws|] == raws;
  }

  // ---- What the modifiers mean ----

  /** The most recent shift event, on either key, was a press. */
  ghost predicate ShiftLastPressed(raws: seq<nat>) {
    exists i | 0 <= i < |raws| :: IsShift(raws[i]) && NoShiftEventAfter(raws, i)
  }

  ghost predicate NoShiftEventAfter(raws: seq<nat>, i: nat) {
    forall j | i < j < |raws| :: !IsShift(raws[j]) && !IsShift(raws[j] - RELEASED)
  }

  function CapsPresses(raws: seq<nat>): nat
    decreases |raws|
  {
    if raws == [] then 0
    else CapsPresses(raws[..|raws| - 1]) + (if raws[|raws| - 1] == CAPS_LOCK then 1 else 0)
  }

  /** What one scancode does to each flag. */
  lemma PressModifiers(m: Modifiers, raw: nat)
    requires raw < 256
    ensures Press(m, raw).0.shift <==> IsShift(raw) || (m.shift && !IsShift(raw - RELEASED))
    ensures Press(m, raw).0.caps <==> (m.caps != (raw == CAPS_LOCK))
  {
    hide Translate, And;
    ReleaseBit(raw);
  }

  /**
   * After any scancodes: Shift counts as held exactly when the latest shift event of either
   * key was a press (so releasing one of two held keys ends it), and Caps Lock is on exactly
   * when it was pressed an odd number of times.
   */
  lemma {:induction false} ModifiersAfter(raws: seq<nat>)
    requires ValidScancodes(raws)
    ensures PressAll(RELEASED_MODIFIERS, raws).shift <==> ShiftLastPressed(raws)
    ensures PressAll(RELEASED_MODIFIERS, raws).caps <==> CapsPresses(raws) % 2 == 1
    decreases |raws|
  {
    hide ShiftLastPressed, Press, IsShift;
    if raws == [] {
      NoShiftEvents();
    } else {
      var n := |raws| - 1;
      var front, last := raws[..n], raws[n];
      assert ValidScancodes(front);
      ModifiersAfter(front);
      PressModifiers(PressAll(RELEASED_MODIFIERS, front), last);
      ShiftEvent(front, last);
      assert front + [last] == raws;
    }
  }

  // ---- When the Shift flag tells the truth ----

  /** A key is held when it was pressed and not released since. */
  function Held(raws: seq<nat>, key: nat): bool
    decreases |raws|
  {
    if raws == [] then false
    else
      var front, last := raws[..|raws| - 1], raws[|raws| - 1];
      last == key || (Held(front, key) && last != key + RELEASED)
  }

  predicate ShiftHeld(raws: seq<nat>) {
    Held(raws, LEFT_SHIFT) || Held(raws, RIGHT_SHIFT)
  }

  /** The latest Shift event released one Shift key while the other was held. */
  function ReleasedUnderOther(raws: seq<nat>): bool
    decreases |raws|
  {
    if raws == [] then false
    else
      var front, last := raws[..|raws| - 1], raws[|raws| - 1];
      if last == LEFT_SHIFT + RELEASED then Held(front, RIGHT_SHIFT)
      else if last == RIGHT_SHIFT + RELEASED then Held(front, LEFT_SHIFT)
      else !IsShift(last) && ReleasedUnderOther(front)
  }

  /**
   * The Shift flag is never set without a Shift key held, and it misses a held key in exactly
   * one situation: the latest Shift event released one key while the other was held.
   */
  lemma {:induction false} ShiftFlagTruth(raws: seq<nat>)
    requires ValidScancodes(raws)
    ensures PressAll(RELEASED_MODIFIERS, raws).shift ==> ShiftHeld(raws)
    ensures PressAll(RELEASED_MODIFIERS, raws).shift == ShiftHeld(raws) <==> !ReleasedUnderOther(raws)
    decreases |raws|
  {
    hide Press;
    if raws != [] {
      var n := |raws| - 1;
      var front, last := raws[..n], raws[n];
      assert ValidScancodes(front);
      ShiftFlagTruth(front);
      PressModifiers(PressAll(RELEASED_MODIFIERS, front), last);
    }
  }

  /** Both Shift keys pressed and the left one released: Right Shift is held, the flag is off. */
  lemma ShiftFlagMisses()
    ensures var raws := [LEFT_SHIFT, RIGHT_SHIFT, LEFT_SHIFT + RELEASED];
      ValidScancodes(raws) && Held(raws, RIGHT_SHIFT) && !PressAll(RELEASED_MODIFIERS, raws).shift
  {
    hide Press;
    var raws := [LEFT_SHIFT, RIGHT_SHIFT, LEFT_SHIFT + RELEASED];
    assert raws[..2] == [LEFT_SHIFT, RIGHT_SHIFT];
    PressModifiers(PressAll(RELEASED_MODIFIERS, raws[..2]), raws[2]);
  }

  lemma NoShiftEvents()
    ensures !ShiftLastPressed([])
  {
  }

  lemma ShiftEvent(front: seq<nat>, last: nat)
    ensures ShiftLastPressed(front + [last]) <==> IsShift(last) || (ShiftLastPressed(front) && !IsShift(last - RELEASED))
  {
    var raws := front + [last];
    forall i | 0 <= i < |front|
      ensures NoShiftEventAfter(raws, i) <==> NoShiftEventAfter(front, i) && !IsShift(last) && !IsShift(last - RELEASED)
    {
      assert raws[|front|] == last;
      assert forall j | i < j < |front| :: raws[j] == front[j];
    }
    assert NoShiftEventAfter(raws, |front|);
    if ShiftLastPressed(front) {
      var i :| 0 <= i < |front| && IsShift(front[i]) && NoShiftEventAfter(front, i);
      assert raws[i] == front[i];
    }
  }

  // ---- What each key types ----

  /** The characters of a key, alone and with Shift, by Set 1 scancode. */
  function KeyPair(code: nat): Option<(char, char)> {
    match code
    case 0x02 => Some(('1', '!'))
    case 0x03 => Some(('2', '@'))
    case 0x04 => Some(('3', '#'))
    case 0x05 => Some(('4', '$'))
    case 0x06 => Some(('5', '%'))
    case 0x07 => Some(('6', '^'))
    case 0x08 => Some(('7', '&'))
    case 0x09 => Some(('8', '*'))
    case 0x0A => Some(('9', '('))
    case 0x0B => Some(('0', ')'))
    case 0x0C => Some(('-', '_'))
    case 0x0D => Some(('=', '+'))
    case 0x0E => Some(('\U{0008}', '\U{0008}'))
    case 0x0F => Some(('\t', '\t'))
    case 0x10 => Some(('q', 'Q'))
    case 0x11 => Some(('w', 'W'))
    case 0x12 => Some(('e', 'E'))
    case 0x13 => Some(('r', 'R'))
    case 0x14 => Some(('t', 'T'))
    case 0x15 => Some(('y', 'Y'))
    case 0x16 => Some(('u', 'U'))
    case 0x17 => Some(('i', 'I'))
    case 0x18 => Some(('o', 'O'))
    case 0x19 => Some(('p', 'P'))
    case 0x1A => Some(('[', '{'))
    case 0x1B => Some((']', '}'))
    case 0x1C => Some(('\n', '\n'))
    case 0x1E => Some(('a', 'A'))
    case 0x1F => Some(('s', 'S'))
    case 0x20 => Some(('d', 'D'))
    case 0x21 => Some(('f', 'F'))
    case 0x22 => Some(('g', 'G'))
    case 0x23 => Some(('h', 'H'))
    case 0x24 => Some(('j', 'J'))
    case 0x25 => Some(('k', 'K'))
    case 0x26 => Some(('l', 'L'))
    case 0x27 => Some((';', ':'))
    case 0x28 => Some(('\'', '\"'))
    case 0x29 => Some(('`', '~'))
    case 0x2B => Some(('\\', '|'))
    case 0x2C => Some(('z', 'Z'))
    case 0x2D => Some(('x', 'X'))
    case 0x2E => Some(('c', 'C'))
    case 0x2F => Some(('v', 'V'))
    case 0x30 => Some(('b', 'B'))
    case 0x31 => Some(('n', 'N'))
    case 0x32 => Some(('m', 'M'))
    case 0x33 => Some((',', '<'))
    case 0x34 => Some(('.', '>'))
    case 0x35 => Some(('/', '?'))
    case 0x39 => Some((' ', ' '))
    case _ => None
  }

  lemma TablesAgree(code: nat)
    requires code < 128
    ensures KeyPair(code) == None ==> NormalMap(code) == NUL && ShiftMap(code) == NUL
    ensures KeyPair(code).Some? ==> (NormalMap(code), ShiftMap(code)) == KeyPair(code).value && NUL !in [NormalMap(code), ShiftMap(code)]
    ensures IsLetterScancode(code) <==> KeyPair(code).Some? && 'a' <= KeyPair(code).value.0 <= 'z'
  {
    hide NormalMap, ShiftMap, KeyPair, IsLetterScancode;
    NormalAgrees(code);
    ShiftAgrees(code);
    LettersAgree(code);
  }

  lemma NormalAgrees(code: nat)
    requires code < 128
    ensures NormalMap(code) == (match KeyPair(code) case None => NUL case Some(pair) => pair.0)
    ensures KeyPair(code).Some? ==> KeyPair(code).value.0 != NUL
  {
  }

  lemma ShiftAgrees(code: nat)
    requires code < 128
    ensures ShiftMap(code) == (match KeyPair(code) case None => NUL case Some(pair) => pair.1)
    ensures KeyPair(code).Some? ==> KeyPair(code).value.1 != NUL
  {
  }

  lemma LettersAgree(code: nat)
    ensures IsLetterScancode(code) <==> KeyPair(code).Some? && 'a' <= KeyPair(code).value.0 <= 'z'
  {
  }

  /** The key with its release bit, in numbers. */
  lemma ModifierLaw(m: Modifiers, raw: nat)
    requires raw < 256
    ensures raw == 0x2A || raw == 0x36 ==> Press(m, raw) == (Modifiers(true, m.caps), None)
    ensures raw == 0x3A ==> Press(m, raw) == (Modifiers(m.shift, !m.caps), None)
    ensures raw == 0xAA || raw == 0xB6 ==> Press(m, raw) == (Modifiers(false, m.caps), None)
    ensures raw >= 0x80 && raw != 0xAA && raw != 0xB6 ==> Press(m, raw) == (m, None)
  {
    hide Translate, And;
    ReleaseBit(raw);
  }

  /**
   * A key that is no modifier types its first character, or its second under Shift; for letters,
   * and for no other key, Caps Lock inverts the choice. A key without characters does nothing.
   */
  lemma KeyLaw(m: Modifiers, code: nat)
    requires code < 0x80 && code != 0x2A && code != 0x36 && code != 0x3A
    ensures KeyPair(code) == None ==> Press(m, code) == (m, None)
    ensures KeyPair(code).Some? ==>
      var (alone, shifted) := KeyPair(code).value;
      var upper := if 'a' <= alone <= 'z' then m.shift != m.caps else m.shift;
      Press(m, code) == (m, Some(if upper then shifted else alone))
  {
    hide NormalMap, ShiftMap, And, KeyPair, IsLetterScancode;
    ReleaseBit(code);
    TablesAgree(code);
  }

  // ---- What comes out ----

  predicate Printable(c: char) {
    ' ' <= c <= '~'
  }

  predicate Typable(c: char) {
    Printable(c) || c in {BACKSPACE, '\t', '\n'}
  }

  lemma NormalMapInRange(code: nat)
    requires code < 128
    ensures NormalMap(code) == NUL || Typable(NormalMap(code))
  {
  }

  lemma ShiftMapInRange(code: nat)
    requires code < 128
    ensures ShiftMap(code) == NUL || Typable(ShiftMap(code))
  {
  }

  /** The keyboard produces printable ASCII, backspace, tab and newline, and nothing else. */
  lemma KeyboardAlphabet(m: Modifiers, raw: nat)
    requires raw < 256 && Press(m, raw).1.Some?
    ensures Typable(Press(m, raw).1.value)
  {
    hide NormalMap, ShiftMap, Typable, And;
    NormalMapInRange(raw % RELEASED);
    ShiftMapInRange(raw % RELEASED);
  }

  lemma {:induction false} TypedAlphabet(m: Modifiers, raws: seq<nat>)
    requires ValidScancodes(raws)
    ensures forall i | 0 <= i < |TypedAll(m, raws)| :: Typable(TypedAll(m, raws)[i])
    decreases |raws|
  {
    hide Press, Typable;
    if raws != [] {
      var front := raws[..|raws| - 1];
      assert ValidScancodes(front);
      TypedAlphabet(m, front);
      if Press(PressAll(m, front), raws[|raws| - 1]).1.Some? {
        KeyboardAlphabet(PressAll(m, front), raws[|raws| - 1]);
      }
    }
  }

  lemma LetterTables(code: nat)
    requires IsLetterScancode(code)
    ensures 'a' <= NormalMap(code) <= 'z' && ShiftMap(code) as int == NormalMap(code) as int - 32
  {
  }

  /** A letter key types its capital exactly when one of Shift and Caps Lock is in force. */
  lemma LetterCase(m: Modifiers, code: nat)
    requires IsLetterScancode(code)
    ensures var c := Press(m, code).1;
      c.Some? && (if m.shift != m.caps then 'A' <= c.value <= 'Z' else 'a' <= c.value <= 'z')
  {
    hide NormalMap, ShiftMap, And;
    ReleaseBit(code);
    LetterTables(code);
  }

  class Keyboard {
    var shiftPressed: bool
    var capsLockEnabled: bool

    constructor ()
      ensures View() == Modifiers(false, false)
    {
      shiftPressed, capsLockEnabled := false, false;
    }

    function View(): Modifiers
      reads this
    {
      Modifiers(shiftPressed, capsLockEnabled)
    }

    /** keyboard_handle_modifier_press */
    method HandleModifierPress(code: nat)
      modifies this
      ensures shiftPressed == (old(shiftPressed) || IsShift(code))
      ensures capsLockEnabled == (old(capsLockEnabled) != (code == CAPS_LOCK))
    {
      if code == LEFT_SHIFT || code == RIGHT_SHIFT {
        shiftPressed := true;
      } else if code == CAPS_LOCK {
        capsLockEnabled := !capsLockEnabled;
      }
    }

    /** keyboard_handle_modifier_release */
    method HandleModifierRelease(code: nat)
      modifies `shiftPressed
      ensures shiftPressed == (old(shiftPressed) && !IsShift(code))
    {
      if code == LEFT_SHIFT || code == RIGHT_SHIFT {
        shiftPressed := false;
      }
    }

    /** keyboard_handle_interrupt, given the byte read from the data port. */
    method HandleInterrupt(raw: nat) returns (produced: bool, ascii: char)
      requires raw < 256
      modifies this
      ensures View() == Press(old(View()), raw).0
      ensures (if produced then Some(ascii) else None) == Press(old(View()), raw).1
    {
      ascii := NUL;
      var released := And(raw, RELEASED) != 0;
      var code := ScancodeOf(raw);
      if released {
        HandleModifierRelease(code);
        return false, ascii;
      }
      HandleModifierPress(code);
      if code == LEFT_SHIFT || code == RIGHT_SHIFT || code == CAPS_LOCK {
        return false, ascii;
      }
      ascii := Translate(View(), code);
      if ascii == NUL {
        return false, ascii;
      }
      return true, ascii;
    }
  }
}
