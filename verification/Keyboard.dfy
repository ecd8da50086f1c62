/** The keyboard: scan codes to characters, and the one-character slot that interrupts fill and
    getchark empties. */
module Keyboard {
  import opened Texts

  type ScanCode = c: int | 0 <= c < 256

  const CAPS_LOCK: ScanCode := 0x3A
  const ALT_DOWN: ScanCode := 0x38
  const ALT_UP: ScanCode := 0xB8
  const SHIFT_DOWN: ScanCode := 0x2A
  const SHIFT_UP: ScanCode := 0xAA
  const CTRL_DOWN: ScanCode := 0x1D
  const CTRL_UP: ScanCode := 0x9D

  // the keys of a row, by scan code from `first` on
  function OnRow(row: string, first: ScanCode, c: ScanCode): char
    requires first <= c < first + |row|
  {
    row[c - first]
  }

  /** The characters without and with shift; NUL stands for no character. */
  function Plain(c: ScanCode): char {
    if c < 16 then OnRow("\U{0}\U{1}1234567890-=\U{8}\t", 0, c)
    else if c < 26 then OnRow("qwertyuiop", 16, c)
    else if c < 30 then OnRow("[]\n\U{0}", 26, c)
    else if c < 39 then OnRow("asdfghjkl", 30, c)
    else if c < 44 then OnRow(";'`\U{0}\\", 39, c)
    else if c < 51 then OnRow("zxcvbnm", 44, c)
    else if c < 54 then OnRow(",./", 51, c)
    else if c == 57 then ' '
    else '\0'
  }

  function Shifted(c: ScanCode): char {
    if c < 16 then OnRow("\U{0}\U{1}!@#$%^&*()_+\U{8}\t", 0, c)
    else if c < 26 then OnRow("QWERTYUIOP", 16, c)
    else if c < 30 then OnRow("{}\n\U{0}", 26, c)
    else if c < 39 then OnRow("ASDFGHJKL", 30, c)
    else if c < 44 then OnRow(":\"~\U{0}|", 39, c)
    else if c < 51 then OnRow("ZXCVBNM", 44, c)
    else if c < 54 then OnRow("<>?", 51, c)
    else if c == 57 then ' '
    else '\0'
  }

  datatype Modifiers = Modifiers(shifted: bool, alted: bool, ctrled: bool, capsLocked: bool)

  const START: Modifiers := Modifiers(false, false, false, false)

  predicate IsModifier(c: ScanCode) {
    c in {CAPS_LOCK, ALT_DOWN, ALT_UP, SHIFT_DOWN, SHIFT_UP, CTRL_DOWN, CTRL_UP}
  }

  function Modified(m: Modifiers, c: ScanCode): Modifiers {
    if c == CAPS_LOCK then m.(capsLocked := !m.capsLocked)
    else if c == ALT_DOWN then m.(alted := true)
    else if c == ALT_UP then m.(alted := false)
    else if c == SHIFT_DOWN then m.(shifted := true)
    else if c == SHIFT_UP then m.(shifted := false)
    else if c == CTRL_DOWN then m.(ctrled := true)
    else if c == CTRL_UP then m.(ctrled := false)
    else m
  }

  // the character that to_character gives for a scan code
  function Decoded(m: Modifiers, c: ScanCode): char {
    if IsModifier(c) then '\0'
    else if m.shifted == m.capsLocked then Plain(c)
    else Shifted(c)
  }

  /** The program: the modifier statics, updated by every scan code. */
  class Decoder {
    var m: Modifiers

    constructor ()
      ensures m == START
    {
      m := START;
    }

    method ToCharacter(scanCode: ScanCode) returns (ch: char)
      modifies this
      ensures m == Modified(old(m), scanCode) && ch == Decoded(old(m), scanCode)
    {
      if scanCode == 0x3A {
        m := m.(capsLocked := !m.capsLocked);
        return '\0';
      } else if scanCode == 0x38 {
        m := m.(alted := true);
        return '\0';
      } else if scanCode == 0xB8 {
        m := m.(alted := false);
        return '\0';
      } else if scanCode == 0x2A {
        m := m.(shifted := true);
        return '\0';
      } else if scanCode == 0xAA {
        m := m.(shifted := false);
        return '\0';
      } else if scanCode == 0x1D {
        m := m.(ctrled := true);
        return '\0';
      } else if scanCode == 0x9D {
        m := m.(ctrled := false);
        return '\0';
      }
      if (!m.shifted && !m.capsLocked) || (m.shifted && m.capsLocked) {
        return Plain(scanCode);
      } else if m.capsLocked || m.shifted {
        return Shifted(scanCode);
      }
      assert false;
    }
  }

  // ----- modifiers over a stream of scan codes -----

  function ModifiedAll(m: Modifiers, codes: seq<ScanCode>): Modifiers
    decreases |codes|
  {
    if codes == [] then m else ModifiedAll(Modified(m, codes[0]), codes[1..])
  }

  function CapsPresses(codes: seq<ScanCode>): nat {
    if codes == [] then 0 else (if codes[0] == CAPS_LOCK then 1 else 0) + CapsPresses(codes[1..])
  }

  /** A key is held: no code of its release comes behind the last of its presses. */
  predicate Held(codes: seq<ScanCode>, down: ScanCode, up: ScanCode) {
    exists i :: 0 <= i < |codes| && codes[i] == down && forall j :: i < j < |codes| ==> codes[j] != up
  }

  predicate ShiftHeld(codes: seq<ScanCode>) { Held(codes, SHIFT_DOWN, SHIFT_UP) }

  lemma {:induction false} CapsIsParity(m: Modifiers, codes: seq<ScanCode>)
    ensures ModifiedAll(m, codes).capsLocked == (m.capsLocked != (CapsPresses(codes) % 2 == 1))
    decreases |codes|
  {
    if codes != [] {
      CapsIsParity(Modified(m, codes[0]), codes[1..]);
    }
  }

  lemma {:induction false} ModifiedSnoc(m: Modifiers, codes: seq<ScanCode>, c: ScanCode)
    ensures ModifiedAll(m, codes + [c]) == Modified(ModifiedAll(m, codes), c)
    decreases |codes|
  {
    if codes == [] {
      assert [] + [c] == [c] && [c][1..] == [];
    } else {
      assert (codes + [c])[1..] == codes[1..] + [c];
      ModifiedSnoc(Modified(m, codes[0]), codes[1..], c);
    }
  }

  lemma HeldSnoc(codes: seq<ScanCode>, c: ScanCode, down: ScanCode, up: ScanCode)
    requires down != up
    ensures Held(codes + [c], down, up) <==> (if c == down then true else if c == up then false else Held(codes, down, up))
  {
    var all := codes + [c];
    if c == down {
      assert all[|codes|] == down;
    } else if Held(codes, down, up) && c != up {
      var i :| 0 <= i < |codes| && codes[i] == down && forall j :: i < j < |codes| ==> codes[j] != up;
      assert all[i] == down;
      assert forall j :: i < j < |all| ==> all[j] != up;
    } else {
      assert all[|codes|] == c && forall i :: 0 <= i < |codes| ==> all[i] == codes[i];
    }
  }

  /** Over any stream, shift, alt and ctrl are held exactly when the latest code of the key was
      that of its press. */
  lemma {:induction false} HeldIsLatest(codes: seq<ScanCode>)
    ensures ModifiedAll(START, codes).shifted <==> Held(codes, 0x2A, 0xAA)
    ensures ModifiedAll(START, codes).alted <==> Held(codes, 0x38, 0xB8)
    ensures ModifiedAll(START, codes).ctrled <==> Held(codes, 0x1D, 0x9D)
    decreases |codes|
  {
    if codes != [] {
      var front, c := codes[..|codes| - 1], codes[|codes| - 1];
      assert codes == front + [c];
      HeldIsLatest(front);
      ModifiedSnoc(START, front, c);
      HeldSnoc(front, c, 0x2A, 0xAA);
      HeldSnoc(front, c, 0x38, 0xB8);
      HeldSnoc(front, c, 0x1D, 0x9D);
    }
  }

  lemma ShiftIsLatest(codes: seq<ScanCode>)
    ensures ModifiedAll(START, codes).shifted <==> ShiftHeld(codes)
  {
    HeldIsLatest(codes);
  }

  function Upper(c: char): char {
    if 'a' <= c <= 'z' then ((c as int - 'a' as int) + 'A' as int) as char else c
  }

  predicate IsLetterCode(c: ScanCode) { 16 <= c <= 25 || 30 <= c <= 38 || 44 <= c <= 50 }

  lemma LetterTables(c: ScanCode)
    requires IsLetterCode(c)
    ensures 'a' <= Plain(c) <= 'z' && Shifted(c) == Upper(Plain(c))
  {
  }

  /** After any stream of scan codes a letter comes out in upper case exactly when one of shift
      and caps lock is in force: shift by its latest press or release, caps lock by parity. */
  lemma LetterCase(codes: seq<ScanCode>, c: ScanCode)
    requires IsLetterCode(c)
    ensures Decoded(ModifiedAll(START, codes), c)
            == if ShiftHeld(codes) != (CapsPresses(codes) % 2 == 1) then Upper(Plain(c)) else Plain(c)
  {
    CapsIsParity(START, codes);
    ShiftIsLatest(codes);
    LetterTables(c);
  }

  /** How often a code occurs. */
  function Occurrences(codes: seq<ScanCode>, code: ScanCode): nat {
    if codes == [] then 0 else (if codes[0] == code then 1 else 0) + Occurrences(codes[1..], code)
  }

  lemma {:induction false} CapsOccurrences(codes: seq<ScanCode>)
    ensures CapsPresses(codes) == Occurrences(codes, 0x3A)
  {
    if codes != [] {
      CapsOccurrences(codes[1..]);
    }
  }

  /** After any stream of scan codes every key that is no modifier gives its shifted character
      exactly when one of shift and caps lock is in force, digits and punctuation included; a
      modifier gives none. */
  lemma KeyCharacter(codes: seq<ScanCode>, c: ScanCode)
    ensures c !in {0x3A, 0x38, 0xB8, 0x2A, 0xAA, 0x1D, 0x9D} ==>
              Decoded(ModifiedAll(START, codes), c)
              == if Held(codes, 0x2A, 0xAA) != (Occurrences(codes, 0x3A) % 2 == 1) then Shifted(c) else Plain(c)
    ensures c in {0x3A, 0x38, 0xB8, 0x2A, 0xAA, 0x1D, 0x9D} ==> Decoded(ModifiedAll(START, codes), c) == '\0'
  {
    CapsIsParity(START, codes);
    CapsOccurrences(codes);
    HeldIsLatest(codes);
  }

  /** The characters of a key. */
  predicate Gives(c: ScanCode, plain: char, shifted: char) {
    Plain(c) == plain && Shifted(c) == shifted
  }

  lemma DigitKeys()
    ensures Gives(2, '1', '!') && Gives(3, '2', '@') && Gives(4, '3', '#') && Gives(5, '4', '$') && Gives(6, '5', '%')
    ensures Gives(7, '6', '^') && Gives(8, '7', '&') && Gives(9, '8', '*') && Gives(10, '9', '(') && Gives(11, '0', ')')
    ensures Gives(12, '-', '_') && Gives(13, '=', '+')
  {
  }

  lemma TopLetterKeys()
    ensures Gives(16, 'q', 'Q') && Gives(17, 'w', 'W') && Gives(18, 'e', 'E') && Gives(19, 'r', 'R') && Gives(20, 't', 'T')
    ensures Gives(21, 'y', 'Y') && Gives(22, 'u', 'U') && Gives(23, 'i', 'I') && Gives(24, 'o', 'O') && Gives(25, 'p', 'P')
  {
  }

  lemma MiddleLetterKeys()
    ensures Gives(30, 'a', 'A') && Gives(31, 's', 'S') && Gives(32, 'd', 'D') && Gives(33, 'f', 'F') && Gives(34, 'g', 'G')
    ensures Gives(35, 'h', 'H') && Gives(36, 'j', 'J') && Gives(37, 'k', 'K') && Gives(38, 'l', 'L')
  {
  }

  lemma BottomLetterKeys()
    ensures Gives(44, 'z', 'Z') && Gives(45, 'x', 'X') && Gives(46, 'c', 'C') && Gives(47, 'v', 'V') && Gives(48, 'b', 'B')
    ensures Gives(49, 'n', 'N') && Gives(50, 'm', 'M')
  {
  }

  lemma PunctuationKeys()
    ensures Gives(26, '[', '{') && Gives(27, ']', '}') && Gives(39, ';', ':') && Gives(40, '\'', '\"') && Gives(41, '`', '~')
    ensures Gives(43, '\\', '|') && Gives(51, ',', '<') && Gives(52, '.', '>') && Gives(53, '/', '?') && Gives(57, ' ', ' ')
  {
  }

  /** Escape, backspace, tab and enter give the same character either way; no other key gives
      any. */
  lemma ControlKeys(c: ScanCode)
    ensures Gives(1, '\U{1}', '\U{1}') && Gives(14, '\U{8}', '\U{8}') && Gives(15, '\U{9}', '\U{9}')
    ensures Gives(28, '\U{A}', '\U{A}')
    ensures c in {0, 29, 42, 54, 55, 56} || c >= 58 ==> Gives(c, '\U{0}', '\U{0}')
  {
  }

  /** The 2 key after five streams. */
  lemma TwoKey()
    ensures Decoded(ModifiedAll(START, []), 0x03) == '2'
    ensures Decoded(ModifiedAll(START, [0x2A]), 0x03) == '@'
    ensures Decoded(ModifiedAll(START, [0x2A, 0xAA]), 0x03) == '2'
    ensures Decoded(ModifiedAll(START, [0x3A]), 0x03) == '@'
    ensures Decoded(ModifiedAll(START, [0x3A, 0x2A]), 0x03) == '2'
  {
    DigitKeys();
    assert [0x2A, 0xAA][1..] == [0xAA] && [0x3A, 0x2A][1..] == [0x2A];
    assert [0x2A][1..] == [] && [0xAA][1..] == [] && [0x3A][1..] == [];
  }

  // ----- the slot -----

  /** What the kernel does, one step at a time: the keyboard interrupt, and the two halves of
      get_most_recent_char. */
  datatype Event = Key(code: ScanCode) | Read | Clear

  /** slot: most_recent_char. taken: what the reader holds between its two halves.
      returned: the characters that getchark has given to its callers. */
  datatype State = State(m: Modifiers, slot: char, reading: bool, taken: char, returned: string)

  const IDLE: State := State(START, '\0', false, '\0', "")

  predicate Possible(s: State, e: Event) {
    match e
    case Key(_) => true
    case Read => !s.reading
    case Clear => s.reading
  }

  function Step(s: State, e: Event): State
    requires Possible(s, e)
  {
    match e
    case Key(code) => s.(m := Modified(s.m, code), slot := Decoded(s.m, code))
    case Read => s.(reading := true, taken := s.slot)
    case Clear =>
      // a NUL sends getchark round its loop again
      s.(slot := '\0', reading := false, returned := if s.taken == '\0' then s.returned else s.returned + [s.taken])
  }

  predicate Possibly(s: State, run: seq<Event>)
    decreases |run|
  {
    run == [] || (Possible(s, run[0]) && Possibly(Step(s, run[0]), run[1..]))
  }

  function After(s: State, run: seq<Event>): State
    requires Possibly(s, run)
    decreases |run|
  {
    if run == [] then s else After(Step(s, run[0]), run[1..])
  }

  // what getchark has returned, or is bound to return at its next step
  function Promised(s: State): string {
    s.returned + if s.reading then Visible(s.taken) else ""
  }

  /** The characters of the interrupts that a read follows at once. */
  function Caught(m: Modifiers, run: seq<Event>): string
    decreases |run|
  {
    if run == [] then ""
    else if run[0].Key? then
      (if |run| >= 2 && run[1] == Read then Visible(Decoded(m, run[0].code)) else "")
      + Caught(Modified(m, run[0].code), run[1..])
    else Caught(m, run[1..])
  }

  // the character in the slot is taken if the next step is a read
  function Waiting(slot: char, run: seq<Event>): string {
    if run != [] && run[0] == Read then Visible(slot) else ""
  }

  /** From any state: what getchark will have returned is what it is already bound to return,
      the waiting character if a read comes next, and the characters caught later. */
  lemma {:induction false} Delivery(s: State, run: seq<Event>)
    requires Possibly(s, run)
    ensures Promised(After(s, run)) == Promised(s) + Waiting(s.slot, run) + Caught(s.m, run)
    decreases |run|
  {
    if run != [] {
      var t, rest := Step(s, run[0]), run[1..];
      Delivery(t, rest);
      match run[0]
      case Key(code) =>
        assert |run| >= 2 ==> rest[0] == run[1];
        assert Caught(s.m, run) == Waiting(t.slot, rest) + Caught(t.m, rest);
        Associative(Promised(t), Waiting(t.slot, rest), Caught(t.m, rest));
      case Read =>
        assert Waiting(t.slot, rest) == "";
      case Clear =>
        assert Waiting(t.slot, rest) == "";
    }
  }

  /** Over every interleaving, getchark delivers exactly the characters whose interrupt is
      followed at once by a read. Every other character is lost: overwritten by the next
      interrupt, or wiped out by the second half of a read that began before it. */
  lemma DeliveredExactly(run: seq<Event>)
    requires Possibly(IDLE, run)
    ensures Promised(After(IDLE, run)) == Caught(START, run)
    ensures After(IDLE, run).returned <= Caught(START, run)
  {
    Delivery(IDLE, run);
  }

  /** Every nonzero character that an interrupt decodes, in order. */
  function Emitted(m: Modifiers, run: seq<Event>): string
    decreases |run|
  {
    if run == [] then ""
    else if run[0].Key? then Visible(Decoded(m, run[0].code)) + Emitted(Modified(m, run[0].code), run[1..])
    else Emitted(m, run[1..])
  }

  predicate Subsequence(a: string, b: string)
    decreases |b|
  {
    a == "" || (b != "" && ((a[0] == b[0] && Subsequence(a[1..], b[1..])) || Subsequence(a, b[1..])))
  }

  lemma SubsequenceSkip(a: string, c: char, b: string)
    requires Subsequence(a, b)
    ensures Subsequence(a, [c] + b) && Subsequence([c] + a, [c] + b)
  {
    assert ([c] + b)[1..] == b && ([c] + a)[1..] == a;
  }

  lemma {:induction false} CaughtInOrder(m: Modifiers, run: seq<Event>)
    ensures Subsequence(Caught(m, run), Emitted(m, run))
    decreases |run|
  {
    if run != [] {
      if run[0].Key? {
        var c, m' := Decoded(m, run[0].code), Modified(m, run[0].code);
        CaughtInOrder(m', run[1..]);
        var a, b := Caught(m', run[1..]), Emitted(m', run[1..]);
        SubsequenceSkip(a, c, b);
        assert "" + a == a && "" + b == b;
      } else {
        CaughtInOrder(m, run[1..]);
      }
    }
  }

  lemma {:induction false} PrefixSubsequence(p: string, a: string, b: string)
    requires p <= a && Subsequence(a, b)
    ensures Subsequence(p, b)
    decreases |b|
  {
    if p != "" {
      if a[0] == b[0] && Subsequence(a[1..], b[1..]) {
        PrefixSubsequence(p[1..], a[1..], b[1..]);
      } else {
        PrefixSubsequence(p, a, b[1..]);
      }
    }
  }

  /** What getchark returns is an in-order subsequence of what the interrupts emitted, each
      emission at most once. */
  lemma DeliveredInOrder(run: seq<Event>)
    requires Possibly(IDLE, run)
    ensures Subsequence(After(IDLE, run).returned, Emitted(START, run))
  {
    DeliveredExactly(run);
    CaughtInOrder(START, run);
    PrefixSubsequence(After(IDLE, run).returned, Caught(START, run), Emitted(START, run));
  }

  /** The slot and its two users. */
  class Slot {
    var mostRecentChar: char
    const decoder: Decoder

    /** The statics are those of a state of the interleaving model. */
    ghost predicate In(s: State)
      reads this, decoder
    {
      mostRecentChar == s.slot && decoder.m == s.m
    }

    constructor ()
      ensures In(IDLE) && fresh(decoder)
    {
      mostRecentChar := '\0';
      decoder := new Decoder();
    }

    /** kbd_irq_handler is the Key event; it overwrites the slot also with "no character". */
    method KbdIrqHandler(scanCode: ScanCode, ghost s: State)
      requires In(s)
      modifies this, decoder
      ensures In(Step(s, Key(scanCode)))
    {
      mostRecentChar := decoder.ToCharacter(scanCode);
    }

    /** get_most_recent_char, when no interrupt comes between its halves, is a Read and a
        Clear; what it gives is what getchark returns unless it is NUL. */
    method GetMostRecentChar(ghost s: State) returns (c: char)
      requires In(s) && !s.reading
      modifies this
      ensures In(Step(Step(s, Read), Clear))
      ensures Step(Step(s, Read), Clear).returned == s.returned + Visible(c)
    {
      c := mostRecentChar;
      mostRecentChar := '\0';
    }
  }
}
