/**
 * The shell's line editor: shell.c. A 64-character buffer and a length, edited one keystroke
 * at a time, with the echo going to the terminal.
 */
module Shell {
  import opened Words
  import opened PlainScreen
  import opened Terminal
  import opened LineEditor

  /** The C string a character array holds: everything before the first NUL. */
  function CString(text: seq<char>): seq<char> {
    if text == [] || text[0] == NUL then [] else [text[0]] + CString(text[1..])
  }

  lemma {:induction false} CStringUpTo(text: seq<char>, n: nat)
    requires n < |text| && NUL !in text[..n]
    ensures text[n] == NUL ==> CString(text) == text[..n]
    ensures text[n] != NUL ==> |CString(text)| > n && CString(text)[..n + 1] == text[..n + 1]
    decreases n
  {
    if n > 0 {
      assert text[0] == text[..n][0];
      assert text[1..][..n - 1] == text[..n][1..];
      CStringUpTo(text[1..], n - 1);
      assert text[..n] == [text[0]] + text[1..][..n - 1];
      if text[n] != NUL {
        assert text[..n + 1] == [text[0]] + text[1..][..n];
        assert CString(text)[..n + 1] == [text[0]] + CString(text[1..])[..n];
      }
    }
  }

  /** shell_strings_equal */
  method StringsEqual(left: seq<char>, right: seq<char>) returns (equal: bool)
    requires NUL in left && NUL in right
    ensures equal <==> CString(left) == CString(right)
  {
    var index := 0;
    while left[index] != NUL && right[index] != NUL
      invariant index < |left| && index < |right|
      invariant NUL !in left[..index] && left[..index] == right[..index]
      decreases |left| - index
    {
      if left[index] != right[index] {
        CStringUpTo(left, index);
        CStringUpTo(right, index);
        assert CString(left)[..index + 1][index] != CString(right)[..index + 1][index];
        return false;
      }
      assert left[..index + 1] == left[..index] + [left[index]];
      assert right[..index + 1] == right[..index] + [right[index]];
      index := index + 1;
    }
    CStringUpTo(left, index);
    CStringUpTo(right, index);
    return left[index] == NUL && right[index] == NUL;
  }

  const STAGE_LABEL: string := "Stage 16.1: Initial kernel heap backing region"
  const READY: string := " shell ready.\n"
  const INVITATION: string := "Type 'help' for commands.\n"

  class Shell {
    const buffer: array<char>
    var length: nat
    const terminal: Terminal

    constructor (terminal: Terminal)
      requires terminal.Valid()
      ensures this.terminal == terminal && fresh(buffer) && Valid() && Line() == []
    {
      buffer := new char[BUFFER_SIZE](_ => NUL);
      length := 0;
      this.terminal := terminal;
    }

    /** The buffer is the line followed by NULs, with room for at least one. */
    ghost predicate Valid()
      reads this, buffer, terminal
    {
      && buffer.Length == BUFFER_SIZE
      && length < BUFFER_SIZE
      && (forall i | length <= i < BUFFER_SIZE :: buffer[i] == NUL)
      && terminal.Valid()
    }

    ghost function Line(): seq<char>
      requires length <= buffer.Length
      reads this, buffer
    {
      buffer[..length]
    }

    /** A line without NULs is the buffer's C string. */
    lemma LineIsText()
      requires Valid()
      ensures NUL !in Line() ==> CString(buffer[..]) == Line()
    {
      if NUL !in Line() {
        assert buffer[..][..length] == Line() && buffer[..][length] == NUL;
        CStringUpTo(buffer[..], length);
      }
    }

    /** shell_reset_buffer */
    method ResetBuffer()
      requires buffer.Length == BUFFER_SIZE && terminal.Valid()
      modifies `length, buffer
      ensures Valid() && Line() == []
    {
      for i := 0 to BUFFER_SIZE
        modifies buffer
        invariant forall j | 0 <= j < i :: buffer[j] == NUL
      {
        buffer[i] := NUL;
      }
      length := 0;
    }

    /** shell_initialize: the banner and the first prompt, which echoes the empty line. */
    method Initialize()
      requires Valid()
      modifies `length, buffer
      modifies terminal`row, terminal`column, terminal`viewStart, terminal`crtcHigh, terminal`crtcLow, terminal.buffer
      ensures Valid() && Line() == [] && Echoes(terminal.View(), Line())
      ensures terminal.View() == PutAll(PutAll(PutAll(PutAll(old(terminal.View()), STAGE_LABEL), READY), INVITATION), PROMPT)
    {
      hide PutAll, Put;
      ResetBuffer();
      terminal.Write(STAGE_LABEL);
      terminal.Write(READY);
      ghost var s := terminal.View();
      terminal.Write(INVITATION);
      terminal.Write(PROMPT);
      EndedLine(s, INVITATION);
      PromptEchoes(PutAll(s, INVITATION));
    }

    /** One comparison of the command buffer with a command name. */
    method Matches(name: string) returns (equal: bool)
      requires Valid() && NUL !in name
      ensures equal <==> CString(buffer[..]) == name
    {
      var text := buffer[..];
      assert text[BUFFER_SIZE - 1] == NUL;
      Terminated(name);
      equal := StringsEqual(text, name + [NUL]);
    }

    /** The comparisons of shell_execute_command, in its order. */
    method Recognise() returns (command: Command)
      requires Valid()
      ensures command == Named(CString(buffer[..]))
    {
      assert buffer[..][0] == buffer[0];
      if buffer[0] == NUL {
        return Empty;
      }
      var equal := Matches("help");
      if equal { return Help; }
      equal := Matches("clear");
      if equal { return Clear; }
      equal := Matches("version");
      if equal { return Version; }
      equal := Matches("ticks");
      if equal { return Ticks; }
      equal := Matches("irq");
      if equal { return Irq; }
      equal := Matches("input");
      if equal { return InputCounts; }
      equal := Matches("mem");
      if equal { return Mem; }
      equal := Matches("pmm");
      if equal { return PmmSummary; }
      equal := Matches("pmm_test");
      if equal { return PmmTest; }
      equal := Matches("heap");
      if equal { return Heap; }
      equal := Matches("paging");
      if equal { return Paging; }
      equal := Matches("about");
      if equal { return About; }
      equal := Matches("scroll");
      if equal { return Scroll; }
      return Unknown;
    }

    /** The last branch of shell_execute_command. */
    method ReportUnknown()
      requires Valid()
      modifies terminal`row, terminal`column, terminal`viewStart, terminal`crtcHigh, terminal`crtcLow, terminal.buffer
      ensures Valid()
      ensures terminal.View() == PutAll(Put(PutAll(PutAll(old(terminal.View()), "Unknown command: "), CString(buffer[..])), '\n'), UNKNOWN_HINT)
    {
      hide PutAll, Put;
      terminal.Write("Unknown command: ");
      assert buffer[..][BUFFER_SIZE - 1] == NUL;
      ghost var n := terminal.WriteString(buffer[..]);
      CStringUpTo(buffer[..], n);
      terminal.PutChar('\n');
      terminal.Write(UNKNOWN_HINT);
    }

    /** shell_execute_command */
    method ExecuteCommand(reports: Reports)
      requires Valid()
      modifies terminal`row, terminal`column, terminal`viewStart, terminal`crtcHigh, terminal`crtcLow, terminal.buffer
      ensures Valid()
      ensures terminal.View() == Execute(old(terminal.View()), CString(buffer[..]), reports)
    {
      hide PutAll, Put, Cleared, Named;
      var command := Recognise();
      if command == Empty {
        return;
      }
      if command == Clear {
        ClearedView(terminal.View());
        terminal.Clear();
      } else if command == Unknown {
        ReportUnknown();
      } else {
        terminal.Write(reports(command));
      }
    }

    /** The Enter branch of shell_handle_character. */
    method Enter(reports: Reports)
      requires Valid()
      modifies `length, buffer
      modifies terminal`row, terminal`column, terminal`viewStart, terminal`crtcHigh, terminal`crtcLow, terminal.buffer
      ensures Valid() && Line() == []
      ensures terminal.View() == PutAll(Execute(Put(old(terminal.View()), '\n'), old(CString(buffer[..])), reports), PROMPT)
    {
      hide PutAll, Put, Execute, CString;
      terminal.PutChar('\n');
      buffer[length] := NUL;
      assert buffer[..] == old(buffer[..]);
      ExecuteCommand(reports);
      ResetBuffer();
      terminal.Write(PROMPT);
    }

    /**
     * shell_handle_character. Called inside interrupt context it panics before touching
     * anything; otherwise line and screen change as the editor says.
     */
    method HandleCharacter(ascii: char, inContext: bool, reports: Reports) returns (panicked: bool)
      requires Valid()
      modifies `length, buffer
      modifies terminal`row, terminal`column, terminal`viewStart, terminal`crtcHigh, terminal`crtcLow, terminal.buffer
      ensures Valid() && panicked == inContext
      ensures panicked ==> Line() == old(Line()) && terminal.View() == old(terminal.View())
      ensures !panicked ==> Line() == Edit(old(Line()), ascii)
      ensures !panicked ==> terminal.View() == React(old(terminal.View()), old(Line()), ascii, old(CString(buffer[..])), reports)
    {
      hide PutAll, Put, Execute, CString;
      if inContext {
        return true;
      }
      if ascii == '\n' {
        Enter(reports);
        return false;
      }
      if ascii == BACKSPACE {
        if length > 0 {
          length := length - 1;
          buffer[length] := NUL;
          assert buffer[..length] == old(buffer[..length])[..length];
          terminal.PutChar(BACKSPACE);
        }
        return false;
      }
      if ascii == '\t' {
        return false;
      }
      if length >= BUFFER_SIZE - 1 {
        terminal.Write(FULL_WARNING);
        terminal.Write(PROMPT);
        return false;
      }
      buffer[length] := ascii;
      length := length + 1;
      assert buffer[..length] == old(buffer[..length]) + [ascii];
      terminal.PutChar(ascii);
      return false;
    }
  }

  lemma ClearedView(s: Screen)
    ensures s.Valid() ==> Cleared(s) == Screen(Blanks(CELLS, s.color), 0, 0, s.color)
  {
  }

  lemma Terminated(name: string)
    requires NUL !in name
    ensures NUL in name + [NUL] && CString(name + [NUL]) == name
  {
    assert (name + [NUL])[..|name|] == name;
    CStringUpTo(name + [NUL], |name|);
  }
}
