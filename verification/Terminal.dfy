/**
 * The VGA terminal: vga.c. Text memory is a circle of 16384 cells; scrolling moves the first
 * visible cell instead of copying rows. 16384 is not a multiple of 80, so rows straddle the
 * end of text memory. The viewport is taken to wrap there, as terminal_wrap_index assumes.
 */
module Terminal {
  import opened Words
  import opened PlainScreen

  const MEMORY_CELLS: nat := 16384

  /** terminal_wrap_index */
  function WrapIndex(index: nat): (r: nat)
    ensures r < MEMORY_CELLS
  {
    index % MEMORY_CELLS
  }

  // ---- The window onto text memory ----

  /** The memory cell shown at offset i of a window that starts at start. */
  function CellAt(start: nat, i: nat): (index: nat)
    ensures index < MEMORY_CELLS
  {
    WrapIndex(start + i)
  }

  /** The 2000 visible cells, in reading order. */
  function Visible(memory: seq<nat>, start: nat): (cells: seq<nat>)
    requires |memory| == MEMORY_CELLS
    ensures |cells| == CELLS
  {
    seq(CELLS, i requires 0 <= i < CELLS => memory[CellAt(start, i)])
  }

  /** Offset i of the window is that many cells past its start, in a circle of 16384 cells. */
  lemma VisibleCell(memory: seq<nat>, start: nat, i: nat)
    requires |memory| == 16384 && i < 2000
    ensures Visible(memory, start)[i] == memory[(start + i) % 16384]
  {
  }

  /** Where the window starts after a character at a cursor: a row further on if the screen scrolls, at 0 after a form feed. */
  function WindowAfter(start: nat, row: nat, column: nat, c: char): nat {
    if c == '\U{000C}' then 0
    else if row == 24 && (c == '\n' || (c == '\t' && column >= 76) || (c !in {'\n', '\r', '\t', '\U{0008}'} && column == 79)) then (start + 80) % 16384
    else start
  }

  ghost predicate InWindow(start: nat, k: nat) {
    exists i: nat | i < CELLS :: CellAt(start, i) == k
  }

  /** Two offsets less than the memory size apart never meet, wherever the window starts. */
  lemma OffsetsDistinct(start: nat, i: nat, j: nat)
    requires i < j < i + MEMORY_CELLS
    ensures CellAt(start, i) != CellAt(start, j)
  {
  }

  lemma WrappedStart(start: nat, i: nat)
    ensures CellAt(WrapIndex(start), i) == CellAt(start, i)
  {
    RemainderUnique(start + i, start / MEMORY_CELLS + (WrapIndex(start) + i) / MEMORY_CELLS, WrapIndex(WrapIndex(start) + i));
  }

  lemma RemainderUnique(x: nat, quotient: nat, r: nat)
    requires x == MEMORY_CELLS * quotient + r && r < MEMORY_CELLS
    ensures WrapIndex(x) == r
  {
  }

  /** Writing one visible cell changes that cell of the window and no other. */
  lemma WriteVisible(memory: seq<nat>, start: nat, i: nat, entry: nat)
    requires |memory| == MEMORY_CELLS && i < CELLS
    ensures InWindow(start, CellAt(start, i))
    ensures Visible(memory[CellAt(start, i) := entry], start) == Visible(memory, start)[i := entry]
  {
    hide WrapIndex;
    forall j: nat | j < CELLS && j != i
      ensures CellAt(start, j) != CellAt(start, i)
    {
      if j < i {
        OffsetsDistinct(start, j, i);
      } else {
        OffsetsDistinct(start, i, j);
      }
    }
  }

  /** Moving the window down one row keeps the 24 rows it shares with the old one. */
  lemma ScrolledWindow(memory: seq<nat>, start: nat)
    requires |memory| == MEMORY_CELLS
    ensures Visible(memory, WrapIndex(start + WIDTH))[..CELLS - WIDTH] == Visible(memory, start)[WIDTH..]
  {
    hide WrapIndex;
    var next := WrapIndex(start + WIDTH);
    forall i: nat | i < CELLS - WIDTH
      ensures CellAt(next, i) == CellAt(start, WIDTH + i)
    {
      WrappedStart(start + WIDTH, i);
      Shifted(start, i);
    }
  }

  lemma Shifted(start: nat, i: nat)
    ensures CellAt(start + WIDTH, i) == CellAt(start, WIDTH + i)
  {
  }

  // ---- Clearing, one cell at a time ----

  function WithRow(cells: seq<nat>, r: nat, x: nat, color: nat): (result: seq<nat>)
    requires |cells| == CELLS && r < HEIGHT && x <= WIDTH
    ensures |result| == CELLS
  {
    cells[..r * WIDTH] + Blanks(x, color) + cells[r * WIDTH + x..]
  }

  function WithRows(cells: seq<nat>, y: nat, color: nat): (result: seq<nat>)
    requires |cells| == CELLS && y <= HEIGHT
    ensures |result| == CELLS
  {
    Blanks(y * WIDTH, color) + cells[y * WIDTH..]
  }

  lemma NoColumns(cells: seq<nat>, r: nat, color: nat)
    requires |cells| == CELLS && r < HEIGHT
    ensures WithRow(cells, r, 0, color) == cells
  {
  }

  lemma OneMoreColumn(cells: seq<nat>, r: nat, x: nat, color: nat)
    requires |cells| == CELLS && r < HEIGHT && x < WIDTH
    ensures WithRow(cells, r, x, color)[r * WIDTH + x := Blank(color)] == WithRow(cells, r, x + 1, color)
  {
  }

  lemma NoRows(cells: seq<nat>, color: nat)
    requires |cells| == CELLS
    ensures WithRows(cells, 0, color) == cells
  {
  }

  lemma OneMoreRow(cells: seq<nat>, y: nat, color: nat)
    requires |cells| == CELLS && y < HEIGHT
    ensures WithRow(WithRows(cells, y, color), y, WIDTH, color) == WithRows(cells, y + 1, color)
  {
  }

  lemma AllRows(cells: seq<nat>, color: nat)
    requires |cells| == CELLS
    ensures WithRows(cells, HEIGHT, color) == Blanks(CELLS, color)
  {
  }

  /** Of the spaces of a tab only the last can scroll. */
  lemma TabScrolls(start: nat, row: nat, column: nat, n: nat, i: nat)
    requires column < WIDTH && n == TAB_WIDTH - column % TAB_WIDTH && i < n
    ensures WindowAfter(start, row, column + i, ' ') == if i + 1 == n then WindowAfter(start, row, column, '\t') else start
  {
  }

  lemma NoSpaces(s: Screen)
    requires s.Valid()
    ensures Spaces(s, 0) == s
  {
  }

  lemma TabIsSpaces(s: Screen, i: nat)
    requires s.Valid()
    ensures Put(s, '\t') == Spaces(s, TAB_WIDTH - s.column % TAB_WIDTH)
    ensures Put(Spaces(s, i), ' ') == Spaces(s, i + 1)
  {
  }

  class Terminal {
    const buffer: array<nat>
    var row: nat
    var column: nat
    var viewStart: nat
    var color: nat
    var crtcHigh: nat
    var crtcLow: nat

    /** The CRTC start registers name the first visible cell; the column may be one past the edge. */
    ghost predicate Consistent()
      reads this
    {
      && buffer.Length == MEMORY_CELLS
      && row < HEIGHT && color < 256
      && viewStart < MEMORY_CELLS
      && crtcHigh * 256 + crtcLow == viewStart && crtcLow < 256
    }

    ghost predicate Valid()
      reads this
    {
      Consistent() && column < WIDTH
    }

    ghost function Shown(): (cells: seq<nat>)
      requires Consistent()
      reads this, buffer
      ensures |cells| == CELLS
    {
      Visible(buffer[..], viewStart)
    }

    /** The plain screen this terminal stands for. */
    ghost function View(): (s: Screen)
      requires Valid()
      reads this, buffer
      ensures s.Valid()
    {
      Screen(Shown(), row, column, color)
    }

    /** terminal_initialize */
    constructor ()
      ensures Valid() && fresh(buffer)
      ensures View() == Screen(Blanks(CELLS, 7), 0, 0, 7)
    {
      buffer := new nat[MEMORY_CELLS](_ => 0);
      row, column, viewStart := 0, 0, 0;
      color := EntryColor(7, 0);
      crtcHigh, crtcLow := 0, 0;
      new;
      Clear();
    }

    /** vga_entry_color */
    static function EntryColor(foreground: nat, background: nat): (color: nat)
      requires foreground < 16 && background < 16
      ensures color < 256 && color % 16 == foreground && color / 16 == background
    {
      foreground + background * 16
    }

    /** terminal_get_buffer_index */
    function BufferIndex(r: nat, c: nat): (index: nat)
      reads this
      ensures index < MEMORY_CELLS
    {
      WrapIndex(viewStart + r * WIDTH + c)
    }

    /** terminal_set_hardware_view_start */
    method SetHardwareViewStart(offset: nat)
      modifies `crtcHigh, `crtcLow
      ensures offset < MEMORY_CELLS ==> crtcHigh * 256 + crtcLow == offset
      ensures crtcLow < 256
    {
      var address := offset % 0x1_0000;
      crtcHigh := address / 256 % 256;
      crtcLow := address % 256;
    }

    /** The store every output operation makes: one visible cell. */
    method WriteCell(r: nat, c: nat, entry: nat)
      requires Consistent() && r < HEIGHT && c < WIDTH
      modifies buffer
      ensures Shown() == old(Shown())[r * WIDTH + c := entry]
      ensures forall k | 0 <= k < MEMORY_CELLS && !InWindow(viewStart, k) :: buffer[k] == old(buffer[k])
    {
      WriteVisible(buffer[..], viewStart, r * WIDTH + c, entry);
      buffer[BufferIndex(r, c)] := entry;
      assert buffer[..] == old(buffer[..])[CellAt(viewStart, r * WIDTH + c) := entry];
    }

    /** terminal_clear_row */
    method ClearRow(r: nat)
      requires Consistent() && r < HEIGHT
      modifies buffer
      ensures Shown() == WithRow(old(Shown()), r, WIDTH, color)
      ensures forall k | 0 <= k < MEMORY_CELLS && !InWindow(viewStart, k) :: buffer[k] == old(buffer[k])
    {
      hide Visible, InWindow, WithRow;
      NoColumns(Shown(), r, color);
      for x := 0 to WIDTH
        modifies buffer
        invariant Shown() == WithRow(old(Shown()), r, x, color)
        invariant forall k | 0 <= k < MEMORY_CELLS && !InWindow(viewStart, k) :: buffer[k] == old(buffer[k])
      {
        WriteCell(r, x, VgaEntry(' ', color));
        OneMoreColumn(old(Shown()), r, x, color);
      }
    }

    /** terminal_clear */
    method Clear()
      requires Consistent()
      modifies `row, `column, `viewStart, `crtcHigh, `crtcLow, buffer
      ensures Valid() && View() == Screen(Blanks(CELLS, color), 0, 0, color) && viewStart == 0
      ensures forall k | 0 <= k < MEMORY_CELLS && !InWindow(viewStart, k) :: buffer[k] == old(buffer[k])
    {
      hide Visible, InWindow, WithRow, WithRows;
      viewStart := 0;
      SetHardwareViewStart(viewStart);
      ghost var before := Shown();
      NoRows(before, color);
      for y := 0 to HEIGHT
        modifies buffer
        invariant Shown() == WithRows(before, y, color)
        invariant forall k | 0 <= k < MEMORY_CELLS && !InWindow(viewStart, k) :: buffer[k] == old(buffer[k])
      {
        ClearRow(y);
        OneMoreRow(before, y, color);
      }
      AllRows(before, color);
      row, column := 0, 0;
    }

    /** terminal_setcolor */
    method SetColor(color: nat)
      requires Valid() && color < 256
      modifies `color
      ensures Valid() && View() == old(View()).(color := color)
    {
      this.color := color;
    }

    /** terminal_scroll_up */
    method ScrollUp()
      requires Consistent()
      modifies `viewStart, `crtcHigh, `crtcLow, buffer
      ensures Consistent() && Shown() == old(Shown())[WIDTH..] + Blanks(WIDTH, color) && viewStart == (old(viewStart) + 80) % 16384
      ensures forall k | 0 <= k < MEMORY_CELLS && !InWindow(viewStart, k) :: buffer[k] == old(buffer[k])
    {
      hide InWindow;
      ScrolledWindow(buffer[..], viewStart);
      viewStart := WrapIndex(viewStart + WIDTH);
      SetHardwareViewStart(viewStart);
      ClearRow(HEIGHT - 1);
    }

    /** terminal_newline */
    method Newline()
      requires Consistent()
      modifies `row, `column, `viewStart, `crtcHigh, `crtcLow, buffer
      ensures Valid() && View() == NextLine(Screen(old(Shown()), old(row), 0, color))
      ensures viewStart == WindowAfter(old(viewStart), old(row), 0, '\n')
      ensures forall k | 0 <= k < MEMORY_CELLS && !InWindow(viewStart, k) :: buffer[k] == old(buffer[k])
    {
      column := 0;
      if row + 1 >= HEIGHT {
        ScrollUp();
        row := HEIGHT - 1;
        return;
      }
      row := row + 1;
    }

    /** terminal_carriage_return */
    method CarriageReturn()
      requires Valid()
      modifies `column
      ensures Valid() && View() == old(View()).(column := 0)
    {
      column := 0;
    }

    /** terminal_tab */
    method Tab()
      requires Valid()
      modifies `row, `column, `viewStart, `crtcHigh, `crtcLow, buffer
      ensures Valid() && View() == Put(old(View()), '\t') && viewStart == WindowAfter(old(viewStart), old(row), old(column), '\t')
      ensures forall k | 0 <= k < MEMORY_CELLS && !InWindow(viewStart, k) && !InWindow(old(viewStart), k) :: buffer[k] == old(buffer[k])
      decreases 1
    {
      hide Visible, InWindow, WindowAfter, Blanks, Put, Type, Spaces;
      TabIsSpaces(View(), 0);
      NoSpaces(View());
      var spaces := TAB_WIDTH - column % TAB_WIDTH;
      for i := 0 to spaces
        invariant Valid() && View() == Spaces(old(View()), i)
        invariant viewStart == if i == spaces then WindowAfter(old(viewStart), old(row), old(column), '\t') else old(viewStart)
        invariant forall k | 0 <= k < MEMORY_CELLS && !InWindow(viewStart, k) && !InWindow(old(viewStart), k) :: buffer[k] == old(buffer[k])
      {
        SpacesInRow(old(View()), i);
        TabIsSpaces(old(View()), i);
        PutChar(' ');
        TabScrolls(old(viewStart), old(row), old(column), spaces, i);
      }
    }

    /** terminal_backspace */
    method Backspace()
      requires Valid()
      modifies `row, `column, `viewStart, `crtcHigh, `crtcLow, buffer
      ensures Valid() && viewStart == old(viewStart) && View() == Erased(old(View()))
      ensures forall k | 0 <= k < MEMORY_CELLS && !InWindow(viewStart, k) :: buffer[k] == old(buffer[k])
    {
      if column > 0 {
        column := column - 1;
      } else if row > 0 {
        row := row - 1;
        column := WIDTH - 1;
      } else {
        return;
      }
      WriteCell(row, column, VgaEntry(' ', color));
    }

    /** terminal_form_feed */
    method FormFeed()
      requires Valid()
      modifies `row, `column, `viewStart, `crtcHigh, `crtcLow, buffer
      ensures Valid() && View() == Cleared(old(View())) && viewStart == 0
      ensures forall k | 0 <= k < MEMORY_CELLS && !InWindow(viewStart, k) :: buffer[k] == old(buffer[k])
    {
      Clear();
    }

    /**
     * terminal_putchar. The window moves only when the plain screen scrolls or clears, and every
     * cell written was visible when it was written.
     */
    method PutChar(c: char)
      requires Valid()
      modifies `row, `column, `viewStart, `crtcHigh, `crtcLow, buffer
      ensures Valid() && View() == Put(old(View()), c)
      ensures viewStart == WindowAfter(old(viewStart), old(row), old(column), c)
      ensures forall k | 0 <= k < MEMORY_CELLS && !InWindow(viewStart, k) && !InWindow(old(viewStart), k) :: buffer[k] == old(buffer[k])
      decreases if c == '\t' then 2 else 0
    {
      hide Visible, InWindow;
      match c {
        case '\n' => Newline(); return;
        case '\r' => CarriageReturn(); return;
        case '\t' => Tab(); return;
        case '\U{0008}' => Backspace(); return;
        case '\U{000C}' => FormFeed(); return;
        case _ =>
      }
      WriteCell(row, column, VgaEntry(c, color));
      column := column + 1;
      if column >= WIDTH {
        Newline();
      }
    }

    /** terminal_write: for every byte string, the circular buffer shows what the plain screen shows. */
    method Write(data: seq<char>)
      requires Valid()
      modifies `row, `column, `viewStart, `crtcHigh, `crtcLow, buffer
      ensures Valid() && View() == PutAll(old(View()), data)
    {
      for i := 0 to |data|
        invariant Valid() && View() == PutAll(old(View()), data[..i])
      {
        PutChar(data[i]);
        assert data[..i + 1][..i] == data[..i];
      }
      assert data[..|data|] == data;
    }

    /** terminal_strlen */
    static method StringLength(text: seq<char>) returns (length: nat)
      requires NUL in text
      ensures length < |text| && text[length] == NUL && NUL !in text[..length]
    {
      length := 0;
      while text[length] != NUL
        invariant length < |text| && NUL !in text[..length]
        decreases |text| - length
      {
        assert text[..length + 1] == text[..length] + [text[length]];
        length := length + 1;
      }
    }

    /** terminal_writestring */
    method WriteString(text: seq<char>) returns (ghost length: nat)
      requires Valid() && NUL in text
      modifies `row, `column, `viewStart, `crtcHigh, `crtcLow, buffer
      ensures Valid() && length < |text| && text[length] == NUL && NUL !in text[..length]
      ensures View() == PutAll(old(View()), text[..length])
    {
      var n := StringLength(text);
      Write(text[..n]);
      length := n;
    }
  }
}
