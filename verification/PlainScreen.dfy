/**
 * A plain 25 by 80 text screen that copies every row up when it scrolls: what the terminal
 * of vga.c is meant to look like, with none of its circular buffer.
 */
module PlainScreen {
  import opened Words

  const WIDTH: nat := 80
  const HEIGHT: nat := 25
  const CELLS: nat := 2000
  const TAB_WIDTH: nat := 4

  const FORM_FEED: char := '\U{000C}'

  /** vga_entry: the character in the low byte, the colour in the high byte. */
  function VgaEntry(c: char, color: nat): nat {
    c as int % 256 + 256 * color
  }

  lemma EntryDecodes(c: char, color: nat)
    ensures VgaEntry(c, color) % 256 == c as int % 256 && VgaEntry(c, color) / 256 == color
  {
  }

  datatype Screen = Screen(cells: seq<nat>, row: nat, column: nat, color: nat) {
    predicate Valid() {
      |cells| == CELLS && row < HEIGHT && column < WIDTH && color < 256
    }

    function Cursor(): nat {
      row * WIDTH + column
    }
  }

  function Blank(color: nat): nat {
    VgaEntry(' ', color)
  }

  function Blanks(n: nat, color: nat): (blanks: seq<nat>)
    ensures |blanks| == n
  {
    seq(n, _ => Blank(color))
  }

  /** Every row moves up one, the bottom row is blank. */
  function Scrolled(s: Screen): (r: Screen)
    requires s.Valid()
    ensures r.Valid()
  {
    s.(cells := s.cells[WIDTH..] + Blanks(WIDTH, s.color))
  }

  function NextLine(s: Screen): (r: Screen)
    requires s.Valid()
    ensures r.Valid()
  {
    if s.row == HEIGHT - 1 then Scrolled(s).(column := 0) else s.(row := s.row + 1, column := 0)
  }

  function SetCell(s: Screen, index: nat, entry: nat): (r: Screen)
    requires s.Valid() && index < CELLS
    ensures r.Valid()
  {
    s.(cells := s.cells[index := entry])
  }

  function Type(s: Screen, c: char): (r: Screen)
    requires s.Valid()
    ensures r.Valid()
  {
    var typed := SetCell(s, s.Cursor(), VgaEntry(c, s.color));
    if s.column + 1 == WIDTH then NextLine(typed) else typed.(column := s.column + 1)
  }

  function Spaces(s: Screen, n: nat): (r: Screen)
    requires s.Valid()
    ensures r.Valid()
  {
    if n == 0 then s else Type(Spaces(s, n - 1), ' ')
  }

  function Erased(s: Screen): (r: Screen)
    requires s.Valid()
    ensures r.Valid()
  {
    if s.column > 0 then SetCell(s, s.Cursor() - 1, Blank(s.color)).(column := s.column - 1)
    else if s.row > 0 then SetCell(s, s.Cursor() - 1, Blank(s.color)).(row := s.row - 1, column := WIDTH - 1)
    else s
  }

  function Cleared(s: Screen): (r: Screen)
    requires s.Valid()
    ensures r.Valid()
  {
    Screen(Blanks(CELLS, s.color), 0, 0, s.color)
  }

  function Put(s: Screen, c: char): (r: Screen)
    requires s.Valid()
    ensures r.Valid()
  {
    if c == '\n' then NextLine(s)
    else if c == '\r' then s.(column := 0)
    else if c == '\t' then Spaces(s, TAB_WIDTH - s.column % TAB_WIDTH)
    else if c == BACKSPACE then Erased(s)
    else if c == FORM_FEED then Cleared(s)
    else Type(s, c)
  }

  function PutAll(s: Screen, text: seq<char>): (r: Screen)
    requires s.Valid()
    ensures r.Valid()
    decreases |text|
  {
    if text == [] then s else Put(PutAll(s, text[..|text| - 1]), text[|text| - 1])
  }

  lemma {:induction false} PutAllJoin(s: Screen, a: seq<char>, b: seq<char>)
    requires s.Valid()
    ensures PutAll(PutAll(s, a), b) == PutAll(s, a + b)
    decreases |b|
  {
    hide Put;
    if b == [] {
      assert a + b == a;
    } else {
      var front := b[..|b| - 1];
      PutAllJoin(s, a, front);
      assert (a + b)[..|a + b| - 1] == a + front;
    }
  }

  lemma PutAllOne(s: Screen, c: char)
    requires s.Valid()
    ensures PutAll(s, [c]) == Put(s, c)
  {
    assert PutAll(s, [c][..0]) == s;
  }

  // ---- Laws ----

  predicate IsControl(c: char) {
    c == '\n' || c == '\r' || c == '\t' || c == BACKSPACE || c == FORM_FEED
  }

  lemma {:induction false} SpacesInRow(s: Screen, n: nat)
    requires s.Valid() && s.column + n < WIDTH
    ensures Spaces(s, n) == Blanked(s, n).(column := s.column + n)
  {
    if n == 0 {
      assert s.cells == s.cells[..s.Cursor()] + Blanks(0, s.color) + s.cells[s.Cursor()..];
    } else {
      SpacesInRow(s, n - 1);
      OneMoreBlank(s.cells, s.Cursor(), n, s.color);
    }
  }

  lemma OneMoreBlank(cells: seq<nat>, i: nat, n: nat, color: nat)
    requires 0 < n && i + n <= |cells|
    ensures (cells[..i] + Blanks(n - 1, color) + cells[i + n - 1..])[i + n - 1 := Blank(color)] == cells[..i] + Blanks(n, color) + cells[i + n..]
  {
  }

  /**
   * A tab blanks exactly the cells up to the next multiple of 4 in its own row and ends there,
   * or at the start of the next row when that stop is the right edge; it never spills.
   */
  lemma TabLaw(s: Screen)
    requires s.Valid()
    ensures var n := TAB_WIDTH - s.column % TAB_WIDTH;
      && 1 <= n <= 4 && s.column + n <= WIDTH && (s.column + n) % TAB_WIDTH == 0
      && Put(s, '\t') == if s.column + n == WIDTH then NextLine(Blanked(s, n)) else Blanked(s, n).(column := s.column + n)
  {
    hide Type, Spaces, NextLine, Blanks;
    var n := TAB_WIDTH - s.column % TAB_WIDTH;
    TabStop(s.column);
    if s.column + n < WIDTH {
      SpacesInRow(s, n);
    } else {
      SpacesToEdge(s, n);
    }
  }

  lemma TabStop(column: nat)
    requires column < WIDTH
    ensures var n := TAB_WIDTH - column % TAB_WIDTH;
      1 <= n <= 4 && column + n <= WIDTH && (column + n) % TAB_WIDTH == 0
  {
  }

  /** The next n cells blanked, the cursor unmoved. */
  function Blanked(s: Screen, n: nat): (r: Screen)
    requires s.Valid() && s.column + n <= WIDTH
    ensures r.Valid()
  {
    s.(cells := s.cells[..s.Cursor()] + Blanks(n, s.color) + s.cells[s.Cursor() + n..])
  }

  lemma SpacesToEdge(s: Screen, n: nat)
    requires s.Valid() && n > 0 && s.column + n == WIDTH
    ensures Spaces(s, n) == NextLine(Blanked(s, n))
  {
    hide NextLine;
    SpacesInRow(s, n - 1);
    LastBlank(s, n);
    NextLineIgnoresColumn(Blanked(s, n), WIDTH - 1);
  }

  lemma LastBlank(s: Screen, n: nat)
    requires s.Valid() && n > 0 && s.column + n == WIDTH
    ensures var before := Blanked(s, n - 1).(column := WIDTH - 1);
      SetCell(before, before.Cursor(), Blank(s.color)) == Blanked(s, n).(column := WIDTH - 1)
  {
    hide Blanks;
    OneMoreBlank(s.cells, s.Cursor(), n, s.color);
  }

  /** A character followed by a backspace blanks its cell and restores the cursor, on the screen
      as the character left it: one row up if it scrolled. */
  lemma BackspaceUndoes(s: Screen, c: char)
    requires s.Valid() && !IsControl(c)
    ensures var scrolls := s.row == HEIGHT - 1 && s.column == WIDTH - 1;
      Put(Put(s, c), BACKSPACE) ==
        if scrolls then SetCell(Scrolled(s), s.Cursor() - WIDTH, Blank(s.color)).(row := s.row - 1)
        else SetCell(s, s.Cursor(), Blank(s.color))
  {
    var i, entry := s.Cursor(), VgaEntry(c, s.color);
    assert s.cells[i := entry][i := Blank(s.color)] == s.cells[i := Blank(s.color)];
    if s.row == HEIGHT - 1 && s.column == WIDTH - 1 {
      var up: seq<nat> := s.cells[WIDTH..] + Blanks(WIDTH, s.color);
      var marked: seq<nat> := up[i - WIDTH := entry];
      assert s.cells[i := entry][WIDTH..] + Blanks(WIDTH, s.color) == marked;
      assert marked[i - WIDTH := Blank(s.color)] == up[i - WIDTH := Blank(s.color)];
    }
  }

  function Entries(text: seq<char>, color: nat): (entries: seq<nat>)
    ensures |entries| == |text|
  {
    seq(|text|, i requires 0 <= i < |text| => VgaEntry(text[i], color))
  }

  /** The text at the cursor, before the cursor moves. */
  function Shown(s: Screen, text: seq<char>): (r: Screen)
    requires s.Valid() && s.column + |text| <= WIDTH
    ensures r.Valid()
  {
    s.(cells := s.cells[..s.Cursor()] + Entries(text, s.color) + s.cells[s.Cursor() + |text|..])
  }

  /** Text without control characters that fits the row appears as written; filling the row starts the next one. */
  lemma {:induction false} TextAppears(s: Screen, text: seq<char>)
    requires s.Valid() && s.column + |text| <= WIDTH
    requires forall i | 0 <= i < |text| :: !IsControl(text[i])
    ensures PutAll(s, text) ==
      if s.column + |text| == WIDTH then NextLine(Shown(s, text)) else Shown(s, text).(column := s.column + |text|)
    decreases |text|
  {
    hide Shown, Type, NextLine;
    if text == [] {
      NothingShown(s);
    } else {
      TextAppears(s, text[..|text| - 1]);
      OneMoreShown(s, text);
    }
  }

  lemma NothingShown(s: Screen)
    requires s.Valid()
    ensures Shown(s, []) == s
  {
    assert s.cells == s.cells[..s.Cursor()] + Entries([], s.color) + s.cells[s.Cursor()..];
  }

  lemma OneMoreShown(s: Screen, text: seq<char>)
    requires s.Valid() && text != [] && s.column + |text| <= WIDTH
    ensures var n := |text|;
      Type(Shown(s, text[..n - 1]).(column := s.column + n - 1), text[n - 1])
      == if s.column + n == WIDTH then NextLine(Shown(s, text)) else Shown(s, text).(column := s.column + n)
  {
    hide NextLine, Entries;
    var n := |text|;
    var before := Shown(s, text[..n - 1]).(column := s.column + n - 1);
    OneMoreEntry(s.cells, s.Cursor(), text, s.color);
    assert SetCell(before, before.Cursor(), VgaEntry(text[n - 1], s.color)) == Shown(s, text).(column := s.column + n - 1);
    NextLineIgnoresColumn(Shown(s, text), s.column + n - 1);
  }

  lemma NextLineIgnoresColumn(s: Screen, column: nat)
    requires s.Valid() && column < WIDTH
    ensures NextLine(s.(column := column)) == NextLine(s)
  {
  }

  lemma OneMoreEntry(cells: seq<nat>, i: nat, text: seq<char>, color: nat)
    requires 0 < |text| && i + |text| <= |cells|
    ensures var n := |text|;
      (cells[..i] + Entries(text[..n - 1], color) + cells[i + n - 1..])[i + n - 1 := VgaEntry(text[n - 1], color)]
      == cells[..i] + Entries(text, color) + cells[i + n..]
  {
  }

  // ---- What each character does, cell by cell ----

  /** The character and attribute in row r, column c of an 80-column screen. */
  function CellOf(s: Screen, r: nat, c: nat): nat
    requires s.Valid() && r < 25 && c < 80
  {
    s.cells[80 * r + c]
  }

  /** What stands in a cell once the cursor has gone to the next row: what stood there, or on the last row what stood below, or a blank. */
  function NextRowCell(s: Screen, r: nat, c: nat): nat
    requires s.Valid() && r < 25 && c < 80
  {
    if s.row < 24 then CellOf(s, r, c) else if r < 24 then CellOf(s, r + 1, c) else 32 + 256 * s.color
  }

  ghost predicate AfterNewline(s: Screen, t: Screen)
    requires s.Valid()
  {
    && t.Valid() && t.color == s.color && t.column == 0
    && t.row == (if s.row < 24 then s.row + 1 else 24)
    && forall r: nat, c: nat | r < 25 && c < 80 :: CellOf(t, r, c) == NextRowCell(s, r, c)
  }

  lemma NewlineLaw(s: Screen)
    requires s.Valid()
    ensures AfterNewline(s, Put(s, '\n')) && AfterNewline(s, NextLine(s))
  {
    forall r: nat, c: nat | r < 25 && c < 80
      ensures CellOf(NextLine(s), r, c) == NextRowCell(s, r, c)
    {
      NewlineCell(s, r, c);
    }
  }

  lemma NewlineCell(s: Screen, r: nat, c: nat)
    requires s.Valid() && r < 25 && c < 80
    ensures CellOf(NextLine(s), r, c) == NextRowCell(s, r, c)
  {
  }

  /** A screen with one cell changed and the cursor wherever it is. */
  ghost predicate OneCellChanged(s: Screen, t: Screen, row: nat, column: nat, entry: nat)
    requires s.Valid()
  {
    && t.Valid() && t.color == s.color
    && forall r: nat, c: nat | r < 25 && c < 80 :: CellOf(t, r, c) == if r == row && c == column then entry else CellOf(s, r, c)
  }

  lemma OtherCells(s: Screen, row: nat, column: nat, entry: nat)
    requires s.Valid() && row < 25 && column < 80
    ensures OneCellChanged(s, SetCell(s, 80 * row + column, entry), row, column, entry)
  {
    var t := SetCell(s, 80 * row + column, entry);
    forall r: nat, c: nat | r < 25 && c < 80
      ensures CellOf(t, r, c) == if r == row && c == column then entry else CellOf(s, r, c)
    {
      SamePosition(r, c, row, column);
    }
  }

  lemma SamePosition(r: nat, c: nat, row: nat, column: nat)
    requires c < 80 && column < 80
    ensures 80 * r + c == 80 * row + column <==> r == row && c == column
  {
  }

  /** Any other character appears at the cursor, low byte and attribute; the cursor moves right, or to the next row after column 79. */
  lemma PrintLaw(s: Screen, ch: char)
    requires s.Valid() && ch !in {'\n', '\r', '\t', '\U{0008}', '\U{000C}'}
    ensures exists shown: Screen ::
      && OneCellChanged(s, shown, s.row, s.column, ch as int % 256 + 256 * s.color) && shown.row == s.row
      && if s.column < 79 then Put(s, ch) == shown && shown.column == s.column + 1 else AfterNewline(shown, Put(s, ch))
  {
    OtherCells(s, s.row, s.column, VgaEntry(ch, s.color));
    var typed := SetCell(s, s.Cursor(), VgaEntry(ch, s.color));
    if s.column < 79 {
      assert OneCellChanged(s, typed.(column := s.column + 1), s.row, s.column, ch as int % 256 + 256 * s.color);
    } else {
      NewlineLaw(typed);
    }
  }

  /** Carriage return moves to column 0; form feed blanks everything and homes the cursor. */
  lemma ReturnAndFormFeedLaw(s: Screen)
    requires s.Valid()
    ensures Put(s, '\r') == s.(column := 0)
    ensures var t := Put(s, '\U{000C}');
      t.row == 0 && t.column == 0 && t.color == s.color && forall r: nat, c: nat | r < 25 && c < 80 :: CellOf(t, r, c) == 32 + 256 * s.color
  {
  }

  /** Backspace blanks the cell before the cursor, across a row start, and moves there; at the top left it does nothing. */
  lemma EraseLaw(s: Screen)
    requires s.Valid()
    ensures var t := Put(s, '\U{0008}');
      if s.row == 0 && s.column == 0 then t == s
      else
        && t.row == (if s.column > 0 then s.row else s.row - 1) && t.column == (if s.column > 0 then s.column - 1 else 79)
        && OneCellChanged(s, t, t.row, t.column, 32 + 256 * s.color)
  {
    if s.column > 0 {
      OtherCells(s, s.row, s.column - 1, Blank(s.color));
    } else if s.row > 0 {
      OtherCells(s, s.row - 1, 79, Blank(s.color));
    }
  }

  /** The cells from the cursor up to a column blanked, the cursor not yet moved. */
  ghost predicate BlankedTo(s: Screen, t: Screen, stop: nat)
    requires s.Valid()
  {
    && t.Valid() && t.color == s.color && t.row == s.row
    && forall r: nat, c: nat | r < 25 && c < 80 :: CellOf(t, r, c) == if r == s.row && s.column <= c < stop then 32 + 256 * s.color else CellOf(s, r, c)
  }

  /** A tab blanks the cells up to the next multiple of 4 in its own row, and if that is the edge goes to the next row. */
  lemma TabCells(s: Screen)
    requires s.Valid()
    ensures exists stop: nat, blanked: Screen ::
      && BlankedTo(s, blanked, stop) && s.column < stop <= s.column + 4 && stop % 4 == 0 && stop <= 80
      && if stop < 80 then Put(s, '\t') == blanked.(column := stop) else AfterNewline(blanked, Put(s, '\t'))
  {
    hide Put, AfterNewline;
    var n := TAB_WIDTH - s.column % TAB_WIDTH;
    TabLaw(s);
    var stop, blanked := s.column + n, Blanked(s, n);
    forall r: nat, c: nat | r < 25 && c < 80
      ensures CellOf(blanked, r, c) == if r == s.row && s.column <= c < stop then 32 + 256 * s.color else CellOf(s, r, c)
    {
      RowSpan(r, c, s.row, s.column, stop);
    }
    assert BlankedTo(s, blanked, stop);
    NewlineLaw(blanked);
  }

  lemma RowSpan(r: nat, c: nat, row: nat, from: nat, to: nat)
    requires c < 80 && to <= 80
    ensures 80 * row + from <= 80 * r + c < 80 * row + to <==> r == row && from <= c < to
  {
  }

  /** Text that exactly fills the row stays visible, one row up if the screen scrolled; the last character too. */
  lemma FullRowStays(s: Screen, text: seq<char>)
    requires s.Valid() && s.column + |text| == 80
    requires forall i | 0 <= i < |text| :: !IsControl(text[i])
    ensures var t := PutAll(s, text);
      && t.column == 0 && t.row == (if s.row < 24 then s.row + 1 else 24)
      && forall i | 0 <= i < |text| :: CellOf(t, if s.row < 24 then s.row else 23, s.column + i) == text[i] as int % 256 + 256 * s.color
  {
    hide PutAll, Shown, NextLine;
    TextAppears(s, text);
    var shown := Shown(s, text);
    NewlineLaw(shown);
    ShownCursor(s, text);
    forall i | 0 <= i < |text|
      ensures CellOf(NextLine(shown), if s.row < 24 then s.row else 23, s.column + i) == text[i] as int % 256 + 256 * s.color
    {
      ShownAt(s, text, i);
      NewlineCell(shown, if s.row < 24 then s.row else 23, s.column + i);
    }
  }

  lemma ShownCursor(s: Screen, text: seq<char>)
    requires s.Valid() && s.column + |text| <= 80
    ensures Shown(s, text).row == s.row && Shown(s, text).color == s.color
  {
  }

  lemma ShownAt(s: Screen, text: seq<char>, i: nat)
    requires s.Valid() && s.column + |text| <= 80 && i < |text|
    ensures CellOf(Shown(s, text), s.row, s.column + i) == text[i] as int % 256 + 256 * s.color
  {
    assert Shown(s, text).cells[s.Cursor() + i] == Entries(text, s.color)[i];
  }
}
