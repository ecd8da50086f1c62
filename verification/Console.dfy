/** The 80x25 text console: what the screen shows is the last 25 rows of what was printed. */
module Console {
  import opened Arithmetic

  const VGA_LENGTH: nat := 25
  const VGA_WIDTH: nat := 80
  const KIO_TABSIZE: nat := 4
  const CELLS: nat := 2000
  const SPAN16: nat := 0x1_0000

  type Byte = bv8
  const NUL: Byte := 0
  const BACKSPACE: Byte := 8
  const TAB: Byte := 9
  const NEWLINE: Byte := 10
  const SPACE: Byte := 32

  datatype Colors = Colors(fore: bv8, back: bv8)

  /** Character in the low byte, colours in the high one. */
  function VgaEntry(ch: Byte, k: Colors): bv16 {
    ((((k.back << 4) | k.fore) as bv16) << 8) | (ch as bv16)
  }

  lemma VgaEntryCharacter(ch: Byte, k: Colors)
    ensures VgaEntry(ch, k) & 0x00FF == ch as bv16
    ensures VgaEntry(ch, k) >> 8 == ((k.back << 4) | k.fore) as bv16
  {
  }

  // ----- the machine, on values -----

  /** The statics vga_index and next_line_index. */
  datatype Cursor = Cursor(index: nat, next: nat)

  datatype Display = Display(cells: seq<bv16>, cursor: Cursor)

  function Blank(k: Colors): seq<bv16> { seq(CELLS, _ => VgaEntry(NUL, k)) }

  function Scrolled(cells: seq<bv16>, k: Colors): (r: seq<bv16>)
    requires |cells| == CELLS
    ensures |r| == CELLS
    ensures forall i :: 0 <= i < CELLS - VGA_WIDTH ==> r[i] == cells[i + VGA_WIDTH]
    ensures forall i :: CELLS - VGA_WIDTH <= i < CELLS ==> r[i] == VgaEntry(NUL, k)
  {
    cells[VGA_WIDTH..] + seq(VGA_WIDTH, _ => VgaEntry(NUL, k))
  }

  predicate Printable(ch: Byte) { ch !in {NUL, BACKSPACE, TAB, NEWLINE} }

  // 16-bit counters wrap
  function Add16(a: nat, b: nat): nat { (a + b) % SPAN16 }

  /** The character would be stored outside the buffer. */
  predicate Faults(c: Cursor, ch: Byte) {
    (Printable(ch) && c.index >= CELLS) || (ch == BACKSPACE && Add16(c.index, SPAN16 - 1) >= CELLS)
  }

  function Move(c: Cursor, ch: Byte): Cursor {
    if ch == NUL then c
    else if ch == BACKSPACE then c.(index := Add16(c.index, SPAN16 - 1))
    else if ch == NEWLINE then
      if c.next >= VGA_LENGTH then c.(index := (VGA_LENGTH - 1) * VGA_WIDTH)
      else Cursor(Add16(VGA_WIDTH * c.next, 0), Add16(c.next, 1))
    else if ch == TAB then c.(index := Add16(c.index, KIO_TABSIZE))
    else
      var i := Add16(c.index, 1);
      Cursor(i, if i % VGA_WIDTH == 0 then Add16(c.next, 1) else c.next)
  }

  function Put(d: Display, ch: Byte, k: Colors): (r: Display)
    requires |d.cells| == CELLS && !Faults(d.cursor, ch)
    ensures |r.cells| == CELLS
  {
    Display(
      if ch == NEWLINE && d.cursor.next >= VGA_LENGTH then Scrolled(d.cells, k)
      else if ch == BACKSPACE then d.cells[Add16(d.cursor.index, SPAN16 - 1) := VgaEntry(SPACE, k)]
      else if Printable(ch) then d.cells[d.cursor.index := VgaEntry(ch, k)]
      else d.cells,
      Move(d.cursor, ch))
  }

  // ----- the characters one by one -----

  /** A printable character goes into the cell under the cursor, which moves on by one; the row
      counter goes up behind the last of 80 columns. Only cells below 2000 can take it. */
  lemma PrintableEffect(d: Display, ch: Byte, k: Colors)
    requires |d.cells| == 2000 && ch != 0 && ch != 8 && ch != 9 && ch != 10 && d.cursor.index < 0x1_0000
    ensures Faults(d.cursor, ch) <==> d.cursor.index >= 2000
    ensures d.cursor.index < 2000 ==>
              var r := Put(d, ch, k);
              && r.cells == d.cells[d.cursor.index := VgaEntry(ch, k)]
              && r.cursor.index == d.cursor.index + 1
              && r.cursor.next == if (d.cursor.index + 1) % 80 == 0 then (d.cursor.next + 1) % 0x1_0000 else d.cursor.next
  {
  }

  /** A backspace moves the cursor back by exactly one and blanks the cell there, and leaves the
      row counter alone. Only cells 0 to 1999 can be blanked. */
  lemma BackspaceEffect(d: Display, k: Colors)
    requires |d.cells| == 2000 && d.cursor.index < 0x1_0000
    ensures Faults(d.cursor, 8) <==> d.cursor.index == 0 || d.cursor.index > 2000
    ensures 1 <= d.cursor.index <= 2000 ==>
              var r := Put(d, 8, k);
              && r.cursor.index == d.cursor.index - 1
              && r.cells == d.cells[d.cursor.index - 1 := VgaEntry(32, k)]
              && r.cursor.next == d.cursor.next
  {
  }

  /** A backspace takes a character back, but for the row counter of a character that ended a
      row: the cursor is where it was, a blank is in that cell, all others are as they were. */
  lemma BackspaceUndoes(d: Display, ch: Byte, k: Colors)
    requires |d.cells| == 2000 && ch != 0 && ch != 8 && ch != 9 && ch != 10 && d.cursor.index < 2000
    ensures !Faults(d.cursor, ch) && !Faults(Put(d, ch, k).cursor, 8)
    ensures var r := Put(Put(d, ch, k), 8, k);
            && r.cursor.index == d.cursor.index
            && r.cells == d.cells[d.cursor.index := VgaEntry(32, k)]
            && r.cursor.next == if (d.cursor.index + 1) % 80 == 0 then (d.cursor.next + 1) % 0x1_0000 else d.cursor.next
  {
    PrintableEffect(d, ch, k);
    BackspaceEffect(Put(d, ch, k), k);
    assert d.cells[d.cursor.index := VgaEntry(ch, k)][d.cursor.index := VgaEntry(32, k)]
        == d.cells[d.cursor.index := VgaEntry(32, k)];
  }

  /** A NUL does nothing. A tab moves the cursor by 4 without a look at rows and cells. */
  lemma NulAndTabEffect(d: Display, k: Colors)
    requires |d.cells| == 2000
    ensures !Faults(d.cursor, 0) && Put(d, 0, k) == d
    ensures !Faults(d.cursor, 9)
    ensures Put(d, 9, k) == Display(d.cells, Cursor((d.cursor.index + 4) % 0x1_0000, d.cursor.next))
  {
  }

  /** A line end goes to the start of the next row; from the 25th row on the screen moves up by
      80 cells instead and the last row is blank. */
  lemma NewlineEffect(d: Display, k: Colors)
    requires |d.cells| == 2000 && d.cursor.next < 0x1_0000
    ensures !Faults(d.cursor, 10)
    ensures d.cursor.next < 25 ==> Put(d, 10, k) == Display(d.cells, Cursor(80 * d.cursor.next, d.cursor.next + 1))
    ensures d.cursor.next >= 25 ==>
              var r := Put(d, 10, k);
              && r.cursor == Cursor(1920, d.cursor.next)
              && (forall i :: 0 <= i < 1920 ==> r.cells[i] == d.cells[i + 80])
              && (forall i :: 1920 <= i < 2000 ==> r.cells[i] == VgaEntry(0, k))
  {
  }

  /** A reset blanks the 2000 cells and goes to the first row. */
  lemma ResetEffect(k: Colors)
    ensures |Reset(k).cells| == 2000 && Reset(k).cursor == Cursor(0, 1)
    ensures forall i :: 0 <= i < 2000 ==> Reset(k).cells[i] == VgaEntry(0, k)
  {
  }

  function MoveAll(c: Cursor, text: seq<Byte>): Cursor
    decreases |text|
  {
    if text == [] then c else MoveAll(Move(c, text[0]), text[1..])
  }

  // some character of the text would be stored outside the buffer
  predicate FaultsIn(c: Cursor, text: seq<Byte>)
    decreases |text|
  {
    text != [] && (Faults(c, text[0]) || FaultsIn(Move(c, text[0]), text[1..]))
  }

  function PutAll(d: Display, text: seq<Byte>, k: Colors): (r: Display)
    requires |d.cells| == CELLS && !FaultsIn(d.cursor, text)
    ensures |r.cells| == CELLS
    decreases |text|
  {
    if text == [] then d else PutAll(Put(d, text[0], k), text[1..], k)
  }

  function Reset(k: Colors): Display {
    Display(Blank(k), Cursor(0, 1))
  }

  // ----- which texts stay in bounds -----

  predicate Plain(text: seq<Byte>) {
    forall i :: 0 <= i < |text| ==> text[i] != TAB && text[i] != BACKSPACE
  }

  type Rows = seq<seq<Byte>>

  /** The lines of a text, without its NUL characters. */
  function Lines(text: seq<Byte>): (r: Rows)
    ensures r != []
    decreases |text|
  {
    if text == [] then [[]]
    else
      var rest := Lines(text[1..]);
      if text[0] == NEWLINE then [[]] + rest
      else if text[0] == NUL then rest
      else [[text[0]] + rest[0]] + rest[1..]
  }

  lemma PlainTail(text: seq<Byte>)
    requires Plain(text) && text != []
    ensures text[0] != TAB && text[0] != BACKSPACE && Plain(text[1..])
  {
    forall i | 0 <= i < |text[1..]| ensures text[1..][i] != TAB && text[1..][i] != BACKSPACE {
      assert text[1..][i] == text[i + 1];
    }
  }

  /** The cursor in column x of a line that was begun with next_line_index at n. */
  function At(n: nat, x: nat): Cursor
    requires n >= 1
  {
    Cursor((Min(n, VGA_LENGTH) - 1) * VGA_WIDTH + x, Add16(n, x / VGA_WIDTH))
  }

  /** The cells from the start of that line to the end of the screen. */
  function LineRoom(n: nat): nat
    requires n >= 1
  {
    CELLS - (Min(n, VGA_LENGTH) - 1) * VGA_WIDTH
  }

  /** next_line_index at the start of the line behind a line of the given length. */
  function NextStart(n: nat, length: nat): (m: nat)
    ensures 1 <= m < SPAN16
  {
    var m := Add16(n, length / VGA_WIDTH);
    if m >= VGA_LENGTH then m else m + 1
  }

  /** Every line has the room it needs where it begins; x characters of the first are printed. */
  predicate Fits(n: nat, x: nat, lines: Rows)
    requires n >= 1 && lines != []
    decreases |lines|
  {
    && x + |lines[0]| <= LineRoom(n)
    && (|lines| == 1 || Fits(NextStart(n, x + |lines[0]|), 0, lines[1..]))
  }

  lemma NewlineAt(n: nat, x: nat)
    requires 1 <= n < SPAN16 && x <= LineRoom(n)
    ensures !Faults(At(n, x), NEWLINE) && Move(At(n, x), NEWLINE) == At(NextStart(n, x), 0)
  {
  }

  lemma PrintableAt(n: nat, x: nat, ch: Byte)
    requires 1 <= n < SPAN16 && x <= LineRoom(n) && Printable(ch)
    ensures Faults(At(n, x), ch) <==> x == LineRoom(n)
    ensures x < LineRoom(n) ==> Move(At(n, x), ch) == At(n, x + 1)
  {
    if x < LineRoom(n) {
      NextColumn(Min(n, VGA_LENGTH) - 1, x);
    }
  }

  lemma NextColumn(y: nat, x: nat)
    ensures (y * VGA_WIDTH + x + 1) % VGA_WIDTH == (x + 1) % VGA_WIDTH
    ensures (x + 1) / VGA_WIDTH == x / VGA_WIDTH + if (x + 1) % VGA_WIDTH == 0 then 1 else 0
  {
  }

  lemma FitsNewline(n: nat, x: nat, rest: Rows)
    requires n >= 1 && rest != []
    ensures Fits(n, x, [[]] + rest) <==> x <= LineRoom(n) && Fits(NextStart(n, x), 0, rest)
  {
    var lines: Rows := [[]] + rest;
    assert lines[1..] == rest && |lines[0]| == 0 && |lines| > 1;
  }

  lemma FitsCharacter(n: nat, x: nat, ch: Byte, rest: Rows)
    requires n >= 1 && rest != []
    ensures Fits(n, x, [[ch] + rest[0]] + rest[1..]) <==> Fits(n, x + 1, rest)
    ensures Fits(n, x, [[ch] + rest[0]] + rest[1..]) ==> x < LineRoom(n)
  {
    assert ([[ch] + rest[0]] + rest[1..])[1..] == rest[1..];
  }

  /** The stores of a text without tabs and backspaces stay in the buffer if and only if its
      lines fit, from any cursor in a line. */
  lemma {:induction false} InBounds(n: nat, x: nat, text: seq<Byte>)
    requires Plain(text) && 1 <= n < SPAN16 && x <= LineRoom(n)
    ensures FaultsIn(At(n, x), text) <==> !Fits(n, x, Lines(text))
    decreases |text|
  {
    if text != [] {
      PlainTail(text);
      var rest := Lines(text[1..]);
      if text[0] == NEWLINE {
        NewlineAt(n, x);
        FitsNewline(n, x, rest);
        InBounds(NextStart(n, x), 0, text[1..]);
      } else if text[0] == NUL {
        InBounds(n, x, text[1..]);
      } else {
        PrintableAt(n, x, text[0]);
        FitsCharacter(n, x, text[0], rest);
        if x < LineRoom(n) {
          InBounds(n, x + 1, text[1..]);
        }
      }
    }
  }

  // the rows that the first i lines take, full rows wrapping
  function RowsBefore(lines: Rows, i: nat): nat
    requires i <= |lines|
  {
    if i == 0 then 0 else |lines[0]| / VGA_WIDTH + 1 + RowsBefore(lines[1..], i - 1)
  }

  predicate LineFits(n: nat, lines: Rows, i: nat)
    requires n >= 1 && i < |lines|
  {
    (Min(n + RowsBefore(lines, i), VGA_LENGTH) - 1) * VGA_WIDTH + |lines[i]| <= CELLS
  }

  predicate AllLinesFit(n: nat, lines: Rows)
    requires n >= 1
  {
    forall i :: 0 <= i < |lines| ==> LineFits(n, lines, i)
  }

  // the characters and line ends of the lines
  function Weight(lines: Rows): nat {
    if lines == [] then 0 else |lines[0]| + 1 + Weight(lines[1..])
  }

  lemma {:induction false} LinesWeight(text: seq<Byte>)
    ensures Weight(Lines(text)) <= |text| + 1
    decreases |text|
  {
    if text != [] {
      LinesWeight(text[1..]);
      var lines, rest := Lines(text), Lines(text[1..]);
      if text[0] == NEWLINE {
        assert lines[1..] == rest;
      } else if text[0] != NUL {
        assert lines[1..] == rest[1..];
      }
    }
  }

  // only whether the last row is reached matters
  lemma AllLinesFitFrom(n: nat, m: nat, lines: Rows)
    requires n >= 1 && m >= 1 && Min(n, VGA_LENGTH) == Min(m, VGA_LENGTH)
    ensures AllLinesFit(n, lines) <==> AllLinesFit(m, lines)
  {
    forall i | 0 <= i < |lines| ensures LineFits(n, lines, i) <==> LineFits(m, lines, i) {
    }
  }

  lemma AllLinesFitTail(n: nat, lines: Rows)
    requires n >= 1 && lines != []
    ensures AllLinesFit(n, lines)
            <==> |lines[0]| <= LineRoom(n) && AllLinesFit(n + |lines[0]| / VGA_WIDTH + 1, lines[1..])
  {
    var k := n + |lines[0]| / VGA_WIDTH + 1;
    forall i | 0 <= i < |lines| - 1 ensures LineFits(n, lines, i + 1) <==> LineFits(k, lines[1..], i) {
      assert lines[i + 1] == lines[1..][i];
    }
    if |lines[0]| <= LineRoom(n) && AllLinesFit(k, lines[1..]) {
      forall i | 0 <= i < |lines| ensures LineFits(n, lines, i) {
        if i > 0 {
          assert LineFits(k, lines[1..], i - 1);
        }
      }
    }
    if AllLinesFit(n, lines) {
      assert LineFits(n, lines, 0);
      forall i | 0 <= i < |lines| - 1 ensures LineFits(k, lines[1..], i) {
        assert LineFits(n, lines, i + 1);
      }
    }
  }

  lemma {:induction false} FitsInRows(n: nat, lines: Rows)
    requires lines != [] && n >= 1 && n + Weight(lines) <= SPAN16
    ensures Fits(n, 0, lines) <==> AllLinesFit(n, lines)
    decreases |lines|
  {
    AllLinesFitTail(n, lines);
    if |lines| > 1 {
      var m, k := NextStart(n, |lines[0]|), n + |lines[0]| / VGA_WIDTH + 1;
      assert Weight(lines[1..]) >= 1;
      AllLinesFitFrom(m, k, lines[1..]);
      FitsInRows(m, lines[1..]);
    }
  }

  /** As long as the 16-bit counter does not wrap: with the screen cut off at 25 rows, every
      line must end on it where the rows before it put it. */
  lemma InBoundsByRows(n: nat, text: seq<Byte>)
    requires Plain(text) && n >= 1 && n + |text| < SPAN16
    ensures FaultsIn(At(n, 0), text) <==> !AllLinesFit(n, Lines(text))
  {
    InBounds(n, 0, text);
    LinesWeight(text);
    FitsInRows(n, Lines(text));
  }

  /** On the bottom row: exactly when no line has more than 80 characters. */
  lemma BottomInBounds(n: nat, text: seq<Byte>)
    requires Plain(text) && n >= VGA_LENGTH && n + |text| < SPAN16
    ensures FaultsIn(At(n, 0), text) <==> exists i :: 0 <= i < |Lines(text)| && |Lines(text)[i]| > VGA_WIDTH
  {
    InBoundsByRows(n, text);
    var lines := Lines(text);
    forall i | 0 <= i < |lines| ensures LineFits(n, lines, i) <==> |lines[i]| <= VGA_WIDTH {
    }
  }

  /** Lines of at most 80 characters fit wherever they begin, also when the counter wraps. */
  lemma {:induction false} NarrowFits(n: nat, lines: Rows)
    requires lines != [] && n >= 1 && forall i :: 0 <= i < |lines| ==> |lines[i]| <= VGA_WIDTH
    ensures Fits(n, 0, lines)
    decreases |lines|
  {
    if |lines| > 1 {
      NarrowFits(NextStart(n, |lines[0]|), lines[1..]);
    }
  }

  // ----- a text that leaves the screen -----

  function Repeat(ch: Byte, k: nat): seq<Byte> { seq(k, _ => ch) }

  lemma {:induction false} NewlinesFirst(n: nat, k: nat, text: seq<Byte>)
    requires 1 <= n && n + k <= VGA_LENGTH
    ensures FaultsIn(At(n, 0), Repeat(NEWLINE, k) + text) <==> FaultsIn(At(n + k, 0), text)
    decreases k
  {
    var s := Repeat(NEWLINE, k) + text;
    if k == 0 {
      assert s == text;
    } else {
      NewlineAt(n, 0);
      assert NextStart(n, 0) == n + 1;
      assert s[1..] == Repeat(NEWLINE, k - 1) + text;
      NewlinesFirst(n + 1, k - 1, text);
    }
  }

  lemma {:induction false} RepeatedLine(ch: Byte, k: nat, text: seq<Byte>)
    requires Printable(ch)
    ensures Lines(Repeat(ch, k) + text) == [Repeat(ch, k) + Lines(text)[0]] + Lines(text)[1..]
    decreases k
  {
    var s := Repeat(ch, k) + text;
    if k == 0 {
      assert s == text && Repeat(ch, k) + Lines(text)[0] == Lines(text)[0];
    } else {
      assert s[1..] == Repeat(ch, k - 1) + text;
      RepeatedLine(ch, k - 1, text);
      assert [ch] + (Repeat(ch, k - 1) + Lines(text)[0]) == Repeat(ch, k) + Lines(text)[0];
    }
  }

  lemma TwoLines(ch: Byte)
    requires Printable(ch)
    ensures Lines([NEWLINE, ch]) == [[], [ch]]
  {
    assert [NEWLINE, ch][1..] == [ch] && [ch][1..] == [];
    assert [ch] + [] == [ch];
    assert Lines([]) == [[]] && Lines([ch]) == [[ch]];
  }

  /** From a reset, 24 line ends and a line of k characters leave the buffer exactly for k over
      80; 80 characters and a line end do not, whatever character follows. */
  lemma FirstOverflow(k: Colors, ch: Byte, length: nat)
    requires Printable(ch) && length < SPAN16 - VGA_LENGTH
    ensures FaultsIn(Reset(k).cursor, Repeat(NEWLINE, 24) + Repeat(ch, length)) <==> length > 80
    ensures !FaultsIn(Reset(k).cursor, Repeat(NEWLINE, 24) + (Repeat(ch, 80) + [NEWLINE, ch]))
  {
    var s, t := Repeat(ch, length), Repeat(ch, 80) + [NEWLINE, ch];
    NewlinesFirst(1, 24, s);
    NewlinesFirst(1, 24, t);
    RepeatedLine(ch, length, []);
    assert s + [] == s;
    BottomInBounds(25, s);
    assert Lines(s) == [s] by { assert s + Lines([])[0] == s; }
    assert |Lines(s)[0]| == length;
    RepeatedLine(ch, 80, [NEWLINE, ch]);
    TwoLines(ch);
    assert Lines(t) == [Repeat(ch, 80) + [], [ch]];
    BottomInBounds(25, t);
  }

  // ----- rows of text -----

  /** The rows printed so far, the last of them the one being written. A full row is followed
      by a new one, but not at the bottom of the screen. */
  predicate WellFormed(rows: Rows) {
    && rows != []
    && (forall i :: 0 <= i < |rows| ==> |rows[i]| <= VGA_WIDTH)
    && (|rows| < VGA_LENGTH ==> |Last(rows)| < VGA_WIDTH)
  }

  function Last(rows: Rows): seq<Byte>
    requires rows != []
  {
    rows[|rows| - 1]
  }

  // the character fills the row at the bottom of the screen
  predicate FillsBottom(rows: Rows, ch: Byte)
    requires rows != []
  {
    Printable(ch) && |rows| >= VGA_LENGTH && |Last(rows)| + 1 == VGA_WIDTH
  }

  function Feed(rows: Rows, ch: Byte): (r: Rows)
    requires rows != []
    ensures r != []
  {
    if ch == NEWLINE then rows + [[]]
    else if Printable(ch) then
      var row := Last(rows) + [ch];
      if |row| == VGA_WIDTH && |rows| < VGA_LENGTH then rows[..|rows| - 1] + [row, []]
      else rows[..|rows| - 1] + [row]
    else rows
  }

  function FeedAll(rows: Rows, text: seq<Byte>): (r: Rows)
    requires rows != []
    ensures r != []
    decreases |text|
  {
    if text == [] then rows else FeedAll(Feed(rows, text[0]), text[1..])
  }

  /** How many characters of the text fill the bottom row. */
  function BottomFills(rows: Rows, text: seq<Byte>): nat
    requires rows != []
    decreases |text|
  {
    if text == [] then 0
    else (if FillsBottom(rows, text[0]) then 1 else 0) + BottomFills(Feed(rows, text[0]), text[1..])
  }

  /** What cell i shows when the last 25 rows are on the screen, padded with blank entries. */
  function CellOf(rows: Rows, i: nat, k: Colors): bv16
    requires i < CELLS
  {
    var y := |rows| - Min(|rows|, VGA_LENGTH) + i / VGA_WIDTH;
    if y < |rows| && i % VGA_WIDTH < |rows[y]| then VgaEntry(rows[y][i % VGA_WIDTH], k) else VgaEntry(NUL, k)
  }

  // vga_index is where the next character of the last row goes, next_line_index the number of
  // that row; at the bottom it may be more, for every row that was filled there
  predicate CursorShows(c: Cursor, rows: Rows)
    requires rows != []
  {
    && (if |rows| < VGA_LENGTH then c.next == |rows| else VGA_LENGTH <= c.next < SPAN16)
    && c.index == (Min(|rows|, VGA_LENGTH) - 1) * VGA_WIDTH + |Last(rows)|
  }

  /** The display shows the last 25 rows, and the cursor is where the next character goes. */
  ghost predicate Shows(d: Display, rows: Rows, k: Colors) {
    && WellFormed(rows)
    && |d.cells| == CELLS
    && CursorShows(d.cursor, rows)
    && forall i :: 0 <= i < CELLS ==> d.cells[i] == CellOf(rows, i, k)
  }

  lemma ResetShows(k: Colors)
    ensures Shows(Reset(k), [[]], k)
  {
  }

  lemma NewlineShows(d: Display, rows: Rows, k: Colors)
    requires Shows(d, rows, k)
    ensures !Faults(d.cursor, NEWLINE) && Shows(Put(d, NEWLINE, k), Feed(rows, NEWLINE), k)
  {
    var r, t := Put(d, NEWLINE, k), Feed(rows, NEWLINE);
    forall i | 0 <= i < CELLS ensures r.cells[i] == CellOf(t, i, k) {
      if |rows| >= VGA_LENGTH && i < CELLS - VGA_WIDTH {
        assert r.cells[i] == d.cells[i + VGA_WIDTH];
        assert (i + VGA_WIDTH) / VGA_WIDTH == i / VGA_WIDTH + 1;
        assert (i + VGA_WIDTH) % VGA_WIDTH == i % VGA_WIDTH;
      }
    }
  }

  // on the screen, a printed character changes the cell under the cursor and no other
  lemma PrintedCell(rows: Rows, ch: Byte, i: nat, k: Colors)
    requires WellFormed(rows) && Printable(ch) && |Last(rows)| < VGA_WIDTH && i < CELLS
    ensures CellOf(Feed(rows, ch), i, k)
            == if i == (Min(|rows|, VGA_LENGTH) - 1) * VGA_WIDTH + |Last(rows)| then VgaEntry(ch, k) else CellOf(rows, i, k)
  {
    var t := Feed(rows, ch);
    var y, x := i / VGA_WIDTH, i % VGA_WIDTH;
    assert i == y * VGA_WIDTH + x;
    assert t[..|rows| - 1] == rows[..|rows| - 1];
    assert t[|rows| - 1] == Last(rows) + [ch];
    assert |t| > |rows| ==> t[|rows|] == [];
  }

  lemma PrintableCursor(c: Cursor, rows: Rows, ch: Byte)
    requires WellFormed(rows) && CursorShows(c, rows) && Printable(ch)
    ensures Faults(c, ch) <==> |Last(rows)| == VGA_WIDTH
    ensures |Last(rows)| < VGA_WIDTH ==>
              && WellFormed(Feed(rows, ch))
              && (CursorShows(Move(c, ch), Feed(rows, ch)) <==> !FillsBottom(rows, ch) || c.next + 1 < SPAN16)
              && (Move(c, ch).next == if |Last(rows)| + 1 == VGA_WIDTH then Add16(c.next, 1) else c.next)
  {
    var n, x := Min(|rows|, VGA_LENGTH), |Last(rows)|;
    assert c.index == (n - 1) * VGA_WIDTH + x;
    assert (c.index + 1) % VGA_WIDTH == 0 <==> (x + 1) % VGA_WIDTH == 0;
  }

  lemma PrintableShows(d: Display, rows: Rows, ch: Byte, k: Colors)
    requires Shows(d, rows, k) && Printable(ch) && !Faults(d.cursor, ch)
    ensures Shows(Put(d, ch, k), Feed(rows, ch), k) <==> !FillsBottom(rows, ch) || d.cursor.next + 1 < SPAN16
  {
    PrintableCursor(d.cursor, rows, ch);
    var r := Put(d, ch, k);
    forall i | 0 <= i < CELLS ensures r.cells[i] == CellOf(Feed(rows, ch), i, k) {
      PrintedCell(rows, ch, i, k);
      assert d.cells[i] == CellOf(rows, i, k);
    }
  }

  // one character: the screen keeps showing the rows unless the counter wraps
  lemma PutShows(d: Display, rows: Rows, ch: Byte, k: Colors)
    requires Shows(d, rows, k) && ch != TAB && ch != BACKSPACE && !Faults(d.cursor, ch)
    ensures Shows(Put(d, ch, k), Feed(rows, ch), k) <==> !FillsBottom(rows, ch) || d.cursor.next + 1 < SPAN16
  {
    if ch == NEWLINE {
      NewlineShows(d, rows, k);
    } else if ch == NUL {
      assert Put(d, ch, k) == d && Feed(rows, ch) == rows;
    } else {
      PrintableShows(d, rows, ch, k);
    }
  }

  // the counter goes up at the bottom only when that row is filled
  lemma CounterStep(c: Cursor, rows: Rows, ch: Byte)
    requires WellFormed(rows) && CursorShows(c, rows) && ch != TAB && ch != BACKSPACE && !Faults(c, ch)
    requires !FillsBottom(rows, ch) || c.next + 1 < SPAN16
    ensures Max(Move(c, ch).next, VGA_LENGTH) == Max(c.next, VGA_LENGTH) + if FillsBottom(rows, ch) then 1 else 0
  {
    if Printable(ch) {
      PrintableCursor(c, rows, ch);
    }
  }

  /** In bounds, screen and cursor show the last 25 rows after every character of the text. */
  ghost predicate AlwaysShows(d: Display, rows: Rows, text: seq<Byte>, k: Colors)
    decreases |text|
  {
    && Shows(d, rows, k)
    && (text == []
        || (!Faults(d.cursor, text[0]) && AlwaysShows(Put(d, text[0], k), Feed(rows, text[0]), text[1..], k)))
  }

  /** For every text without tabs and backspaces screen and cursor show the last 25 rows
      throughout, if and only if all stores are in bounds and the rows filled at the bottom do not make the
      16-bit counter wrap. */
  lemma {:induction false} TextShows(d: Display, rows: Rows, text: seq<Byte>, k: Colors)
    requires Shows(d, rows, k) && Plain(text)
    ensures AlwaysShows(d, rows, text, k)
            <==> !FaultsIn(d.cursor, text) && Max(d.cursor.next, VGA_LENGTH) + BottomFills(rows, text) < SPAN16
    ensures AlwaysShows(d, rows, text, k) ==> Shows(PutAll(d, text, k), FeedAll(rows, text), k)
    decreases |text|
  {
    if text != [] && !Faults(d.cursor, text[0]) {
      PlainTail(text);
      PutShows(d, rows, text[0], k);
      if Shows(Put(d, text[0], k), Feed(rows, text[0]), k) {
        CounterStep(d.cursor, rows, text[0]);
        TextShows(Put(d, text[0], k), Feed(rows, text[0]), text[1..], k);
      }
    }
  }

  // ----- texts whose lines are rows -----

  /** No line wraps: lines of at most 79 characters, and from the 25th row on of at most 80;
      r is the row of the first. */
  predicate UnwrappedLines(r: nat, lines: Rows) {
    forall i :: 0 <= i < |lines| ==> |lines[i]| < VGA_WIDTH || (|lines[i]| == VGA_WIDTH && r + i >= VGA_LENGTH)
  }

  function Full(row: seq<Byte>): nat { if |row| == VGA_WIDTH then 1 else 0 }

  function FullLines(lines: Rows): nat {
    if lines == [] then 0 else Full(lines[0]) + FullLines(lines[1..])
  }

  // lines the first of which goes on behind a row
  function Joined(row: seq<Byte>, lines: Rows): Rows
    requires lines != []
  {
    [row + lines[0]] + lines[1..]
  }

  lemma JoinedNothing(lines: Rows)
    requires lines != []
    ensures Joined([], lines) == lines
  {
    assert [] + lines[0] == lines[0];
  }

  lemma JoinedNewline(row: seq<Byte>, rest: Rows)
    ensures Joined(row, [[]] + rest) == [row] + rest
  {
    assert row + [] == row;
  }

  lemma JoinedCharacter(row: seq<Byte>, ch: Byte, rest: Rows)
    requires rest != []
    ensures Joined(row + [ch], rest) == Joined(row, [[ch] + rest[0]] + rest[1..])
  {
    assert (row + [ch]) + rest[0] == row + ([ch] + rest[0]);
  }

  // the rows continued by the lines of a text
  function Continued(rows: Rows, lines: Rows): Rows
    requires rows != [] && lines != []
  {
    rows[..|rows| - 1] + Joined(Last(rows), lines)
  }

  lemma ContinuedNewline(rows: Rows, rest: Rows)
    requires rows != [] && rest != []
    ensures Continued(rows + [[]], rest) == Continued(rows, [[]] + rest)
  {
    JoinedNothing(rest);
    JoinedNewline(Last(rows), rest);
    assert (rows + [[]])[..|rows|] == rows[..|rows| - 1] + [Last(rows)];
  }

  lemma ContinuedCharacter(rows: Rows, ch: Byte, rest: Rows)
    requires rows != [] && rest != []
    ensures Continued(rows[..|rows| - 1] + [Last(rows) + [ch]], rest) == Continued(rows, [[ch] + rest[0]] + rest[1..])
  {
    JoinedCharacter(Last(rows), ch, rest);
  }

  lemma UnwrappedTail(r: nat, row: seq<Byte>, rest: Rows)
    requires UnwrappedLines(r, [row] + rest)
    ensures UnwrappedLines(r + 1, rest)
  {
    forall i | 0 <= i < |rest| ensures |rest[i]| < VGA_WIDTH || (|rest[i]| == VGA_WIDTH && r + 1 + i >= VGA_LENGTH) {
      assert ([row] + rest)[i + 1] == rest[i];
    }
  }

  /** As long as no line wraps, feeding the rows one character at a time is splitting the text
      into lines, and the bottom row is filled once for every line of 80 characters. */
  lemma {:induction false} LinesAreRows(rows: Rows, text: seq<Byte>)
    requires rows != [] && Plain(text) && UnwrappedLines(|rows|, Joined(Last(rows), Lines(text)))
    ensures FeedAll(rows, text) == Continued(rows, Lines(text))
    ensures BottomFills(rows, text) + Full(Last(rows)) == FullLines(Joined(Last(rows), Lines(text)))
    decreases |text|
  {
    var row, joined := Last(rows), Joined(Last(rows), Lines(text));
    if text == [] {
      JoinedNewline(row, []);
      assert joined == [row] && joined[1..] == [];
    } else {
      PlainTail(text);
      var rest, next := Lines(text[1..]), Feed(rows, text[0]);
      if text[0] == NEWLINE {
        JoinedNewline(row, rest);
        JoinedNothing(rest);
        UnwrappedTail(|rows|, row, rest);
        ContinuedNewline(rows, rest);
        assert joined[1..] == rest && Last(next) == [];
      } else if text[0] != NUL {
        JoinedCharacter(row, text[0], rest);
        assert |row + [text[0]]| <= |joined[0]|;
        ContinuedCharacter(rows, text[0], rest);
        assert Last(next) == row + [text[0]] && |next| == |rows|;
      }
      LinesAreRows(next, text[1..]);
    }
  }

  lemma UnwrappedNarrow(r: nat, lines: Rows)
    requires UnwrappedLines(r, lines)
    ensures forall i :: 0 <= i < |lines| ==> |lines[i]| <= VGA_WIDTH
  {
  }

  /** After a reset, a text without tabs and backspaces none of whose lines wraps is printed
      within bounds. Throughout, and at the end as its last 25 lines, screen and cursor show
      it if and only if fewer than 65511 lines have 80 characters. */
  lemma LastLinesShown(text: seq<Byte>, k: Colors)
    requires Plain(text) && UnwrappedLines(1, Lines(text))
    ensures !FaultsIn(Reset(k).cursor, text)
    ensures AlwaysShows(Reset(k), [[]], text, k) <==> VGA_LENGTH + FullLines(Lines(text)) < SPAN16
    ensures AlwaysShows(Reset(k), [[]], text, k) ==> Shows(PutAll(Reset(k), text, k), Lines(text), k)
  {
    var lines := Lines(text);
    UnwrappedNarrow(1, lines);
    NarrowFits(1, lines);
    InBounds(1, 0, text);
    ResetShows(k);
    JoinedNothing(lines);
    LinesAreRows([[]], text);
    assert Continued([[]], lines) == lines;
    TextShows(Reset(k), [[]], text, k);
  }

  // ----- where the cursor is -----

  /** vga_index lies in row next_line_index - 1, which is on the screen. */
  predicate InRow(c: Cursor) {
    c.next >= 1 && c.index / VGA_WIDTH == c.next - 1 < VGA_LENGTH
  }

  ghost predicate AlwaysInRow(c: Cursor, text: seq<Byte>)
    decreases |text|
  {
    InRow(c) && (text == [] || AlwaysInRow(Move(c, text[0]), text[1..]))
  }

  lemma InRowMeaning(c: Cursor, rows: Rows)
    requires WellFormed(rows) && CursorShows(c, rows)
    ensures InRow(c) <==> |Last(rows)| < VGA_WIDTH && c.next == Min(|rows|, VGA_LENGTH)
  {
  }

  lemma InRowMove(c: Cursor, rows: Rows, ch: Byte)
    requires WellFormed(rows) && CursorShows(c, rows) && InRow(c) && ch != TAB && ch != BACKSPACE
    ensures !Faults(c, ch)
    ensures InRow(Move(c, ch)) <==> !FillsBottom(rows, ch)
  {
    InRowMeaning(c, rows);
    if Printable(ch) {
      PrintableCursor(c, rows, ch);
    }
  }

  // one character keeps the counters together unless it fills the bottom row
  lemma InRowStep(d: Display, rows: Rows, ch: Byte, k: Colors)
    requires Shows(d, rows, k) && InRow(d.cursor) && ch != TAB && ch != BACKSPACE
    ensures !Faults(d.cursor, ch) && Shows(Put(d, ch, k), Feed(rows, ch), k)
    ensures InRow(Move(d.cursor, ch)) <==> !FillsBottom(rows, ch)
  {
    InRowMove(d.cursor, rows, ch);
    PutShows(d, rows, ch, k);
  }

  /** The two counters agree at every point of a text without tabs and backspaces exactly when
      they do at its start and the text never fills the bottom row. */
  lemma {:induction false} CountersAgree(d: Display, rows: Rows, text: seq<Byte>, k: Colors)
    requires Shows(d, rows, k) && Plain(text)
    ensures AlwaysInRow(d.cursor, text) <==> InRow(d.cursor) && BottomFills(rows, text) == 0
    decreases |text|
  {
    if text != [] && InRow(d.cursor) {
      PlainTail(text);
      InRowStep(d, rows, text[0], k);
      CountersAgree(Put(d, text[0], k), Feed(rows, text[0]), text[1..], k);
    }
  }

  /** When a character has filled the bottom row, the next is stored outside the buffer if and
      only if it is printable; a line end, a NUL, a tab and a backspace are not. */
  lemma PastTheBottom(d: Display, rows: Rows, ch: Byte, next: Byte, k: Colors)
    requires Shows(d, rows, k) && FillsBottom(rows, ch)
    ensures FaultsIn(d.cursor, [ch, next]) <==> Printable(next)
  {
    PrintableCursor(d.cursor, rows, ch);
    var m := Move(d.cursor, ch);
    assert d.cursor.index == CELLS - 1 && m.index == CELLS;
    assert [ch, next][1..] == [next] && [next][1..] == [];
    assert FaultsIn(m, [next]) <==> Faults(m, next);
  }

  // ----- the program -----

  class Screen {
    const vgaBuffer: array<bv16>
    var vgaIndex: nat
    var nextLineIndex: nat
    var colors: Colors

    ghost predicate Valid()
      reads this
    {
      vgaBuffer.Length == CELLS && vgaIndex < SPAN16 && nextLineIndex < SPAN16
    }

    ghost function State(): Display
      reads this, vgaBuffer
    {
      Display(vgaBuffer[..], Cursor(vgaIndex, nextLineIndex))
    }

    constructor (memory: array<bv16>, fore: bv8, back: bv8)
      requires memory.Length == CELLS
      ensures Valid() && vgaBuffer == memory && colors == Colors(fore, back)
      ensures vgaIndex == 0 && nextLineIndex == 1
    {
      vgaBuffer, vgaIndex, nextLineIndex, colors := memory, 0, 1, Colors(fore, back);
    }

    method ClearVgaBuffer()
      requires Valid()
      modifies vgaBuffer
      ensures vgaBuffer[..] == Blank(colors)
    {
      var y := 0;
      while y < VGA_LENGTH
        invariant y <= VGA_LENGTH
        invariant forall i :: 0 <= i < y * VGA_WIDTH ==> vgaBuffer[i] == VgaEntry(NUL, colors)
      {
        var x := 0;
        while x < VGA_WIDTH
          invariant x <= VGA_WIDTH
          invariant forall i :: 0 <= i < y * VGA_WIDTH + x ==> vgaBuffer[i] == VgaEntry(NUL, colors)
        {
          vgaBuffer[y * VGA_WIDTH + x] := VgaEntry(NUL, colors);
          x := x + 1;
        }
        y := y + 1;
      }
    }

    method ResetVideoMemory()
      requires Valid()
      modifies this`vgaIndex, this`nextLineIndex, vgaBuffer
      ensures Valid() && State() == Reset(colors)
    {
      ClearVgaBuffer();
      vgaIndex := 0;
      nextLineIndex := 1;
    }

    /** Moves every row up by one and blanks the last. */
    method ScrollVgaBuffer()
      requires Valid()
      modifies this`vgaIndex, vgaBuffer
      ensures vgaBuffer[..] == Scrolled(old(vgaBuffer[..]), colors)
      ensures vgaIndex == (VGA_LENGTH - 1) * VGA_WIDTH
    {
      ghost var was := vgaBuffer[..];
      var y := 1;
      while y < VGA_LENGTH
        invariant 1 <= y <= VGA_LENGTH
        invariant forall i :: 0 <= i < (y - 1) * VGA_WIDTH ==> vgaBuffer[i] == was[i + VGA_WIDTH]
        invariant forall i :: (y - 1) * VGA_WIDTH <= i < CELLS ==> vgaBuffer[i] == was[i]
      {
        var x := 0;
        while x < VGA_WIDTH
          invariant x <= VGA_WIDTH
          invariant forall i :: 0 <= i < (y - 1) * VGA_WIDTH + x ==> vgaBuffer[i] == was[i + VGA_WIDTH]
          invariant forall i :: (y - 1) * VGA_WIDTH + x <= i < CELLS ==> vgaBuffer[i] == was[i]
        {
          vgaBuffer[(y - 1) * VGA_WIDTH + x] := vgaBuffer[y * VGA_WIDTH + x];
          x := x + 1;
        }
        y := y + 1;
      }
      var x := 0;
      while x < VGA_WIDTH
        invariant x <= VGA_WIDTH
        invariant forall i :: 0 <= i < CELLS - VGA_WIDTH ==> vgaBuffer[i] == was[i + VGA_WIDTH]
        invariant forall i :: CELLS - VGA_WIDTH <= i < CELLS - VGA_WIDTH + x ==> vgaBuffer[i] == VgaEntry(NUL, colors)
      {
        vgaBuffer[(VGA_LENGTH - 1) * VGA_WIDTH + x] := VgaEntry(NUL, colors);
        x := x + 1;
      }
      vgaIndex := (VGA_LENGTH - 1) * VGA_WIDTH;
    }

    method PrintNewLine()
      requires Valid()
      modifies this`vgaIndex, this`nextLineIndex, vgaBuffer
      ensures Valid() && State() == Put(old(State()), NEWLINE, colors)
    {
      if nextLineIndex >= VGA_LENGTH {
        ScrollVgaBuffer();
      } else {
        vgaIndex := Add16(VGA_WIDTH * nextLineIndex, 0);
        nextLineIndex := Add16(nextLineIndex, 1);
      }
    }

    /** False when the character would have been stored outside the buffer. */
    method PrintChar(ch: Byte) returns (inside: bool)
      requires Valid()
      modifies this`vgaIndex, this`nextLineIndex, vgaBuffer
      ensures Valid()
      ensures inside <==> !Faults(old(State()).cursor, ch)
      ensures inside ==> State() == Put(old(State()), ch, colors)
    {
      if ch == NUL {
        return true;
      }
      if ch == BACKSPACE {
        vgaIndex := Add16(vgaIndex, SPAN16 - 1);
        if vgaIndex >= vgaBuffer.Length {
          return false;
        }
        vgaBuffer[vgaIndex] := VgaEntry(SPACE, colors);
        return true;
      }
      if ch == NEWLINE {
        PrintNewLine();
      } else if ch == TAB {
        vgaIndex := Add16(vgaIndex, KIO_TABSIZE);
      } else {
        if vgaIndex >= vgaBuffer.Length {
          return false;
        }
        vgaBuffer[vgaIndex] := VgaEntry(ch, colors);
        vgaIndex := Add16(vgaIndex, 1);
        if vgaIndex % VGA_WIDTH == 0 {
          nextLineIndex := Add16(nextLineIndex, 1);
        }
      }
      return true;
    }

    method PrintText(text: seq<Byte>) returns (inside: bool)
      requires Valid()
      modifies this`vgaIndex, this`nextLineIndex, vgaBuffer
      ensures Valid()
      ensures inside <==> !FaultsIn(old(State()).cursor, text)
      ensures inside ==> State() == PutAll(old(State()), text, colors)
    {
      var n := 0;
      assert text[0..] == text;
      while n < |text|
        invariant n <= |text| && Valid()
        invariant FaultsIn(State().cursor, text[n..]) <==> FaultsIn(old(State()).cursor, text)
        invariant !FaultsIn(old(State()).cursor, text) ==>
                    PutAll(State(), text[n..], colors) == PutAll(old(State()), text, colors)
      {
        assert text[n..][1..] == text[n + 1..];
        inside := PrintChar(text[n]);
        if !inside {
          return;
        }
        n := n + 1;
      }
      return true;
    }

    /** Reset and print: whether all stores stay in the buffer, and what is on the screen then. */
    method ShowText(text: seq<Byte>) returns (inside: bool)
      requires Valid() && Plain(text)
      modifies this`vgaIndex, this`nextLineIndex, vgaBuffer
      ensures Valid()
      ensures inside <==> Fits(1, 0, Lines(text))
      ensures inside && VGA_LENGTH + BottomFills([[]], text) < SPAN16 ==> Shows(State(), FeedAll([[]], text), colors)
      ensures UnwrappedLines(1, Lines(text)) && VGA_LENGTH + FullLines(Lines(text)) < SPAN16 ==>
                inside && Shows(State(), Lines(text), colors)
    {
      ResetVideoMemory();
      InBounds(1, 0, text);
      ResetShows(colors);
      TextShows(State(), [[]], text, colors);
      if UnwrappedLines(1, Lines(text)) {
        LastLinesShown(text, colors);
      }
      inside := PrintText(text);
    }
  }
}
