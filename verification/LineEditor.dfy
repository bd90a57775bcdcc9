/**
 * What the shell's line editor (shell.c) does to the line and to the screen, and when the
 * screen shows the line.
 */
module LineEditor {
  import opened Words
  import opened PlainScreen
  import Keyboard

  const BUFFER_SIZE: nat := 64
  const PROMPT: seq<char> := "wigOSX> "
  const FULL_WARNING: seq<char> := "\n[WARNING] Shell input buffer full.\n"

  // ---- The line ----

  /** One character's effect on the command line. */
  function Edit(line: seq<char>, c: char): (r: seq<char>)
    ensures |line| < BUFFER_SIZE ==> |r| < BUFFER_SIZE
  {
    if c == '\n' then []
    else if c == BACKSPACE then (if line == [] then [] else line[..|line| - 1])
    else if c == '\t' || |line| >= BUFFER_SIZE - 1 then line
    else line + [c]
  }

  // ---- Commands and what they print ----

  datatype Command = Empty | Help | Clear | Version | Ticks | Irq | InputCounts | Mem | PmmSummary | PmmTest | Heap | Paging | About | Scroll | Unknown

  function Named(command: seq<char>): Command {
    if command == "" then Empty
    else if command == "help" then Help
    else if command == "clear" then Clear
    else if command == "version" then Version
    else if command == "ticks" then Ticks
    else if command == "irq" then Irq
    else if command == "input" then InputCounts
    else if command == "mem" then Mem
    else if command == "pmm" then PmmSummary
    else if command == "pmm_test" then PmmTest
    else if command == "heap" then Heap
    else if command == "paging" then Paging
    else if command == "about" then About
    else if command == "scroll" then Scroll
    else Unknown
  }

  /** The text each reporting command prints; every one of them ends its last line. */
  type Reports = r: Command -> seq<char> | forall c: Command :: EndsLine(r(c)) ghost witness (_: Command) => "\n"

  predicate EndsLine(text: seq<char>) {
    text != [] && text[|text| - 1] == '\n'
  }

  const UNKNOWN_HINT: seq<char> := "Type 'help' for available commands.\n"

  /** The screen after a command ran on a screen whose cursor starts a row. */
  function Execute(s: Screen, command: seq<char>, reports: Reports): (r: Screen)
    requires s.Valid()
    ensures r.Valid()
  {
    var named := Named(command);
    if named == Empty then s
    else if named == Clear then Cleared(s)
    else if named == Unknown then PutAll(Put(PutAll(PutAll(s, "Unknown command: "), command), '\n'), UNKNOWN_HINT)
    else PutAll(s, reports(named))
  }

  /** One character's effect on the screen. */
  function React(s: Screen, line: seq<char>, c: char, command: seq<char>, reports: Reports): (r: Screen)
    requires s.Valid()
    ensures r.Valid()
  {
    if c == '\n' then PutAll(Execute(Put(s, '\n'), command, reports), PROMPT)
    else if c == BACKSPACE then (if line == [] then s else Put(s, BACKSPACE))
    else if c == '\t' then s
    else if |line| >= BUFFER_SIZE - 1 then PutAll(PutAll(s, FULL_WARNING), PROMPT)
    else Put(s, c)
  }

  // ---- Echo ----

  /** The cursor's row starts with the prompt and the line, and the cursor stands right after them. */
  ghost predicate Echoes(s: Screen, line: seq<char>) {
    && s.Valid() && |line| < BUFFER_SIZE
    && s.column == |PROMPT| + |line|
    && s.cells[s.row * WIDTH..s.Cursor()] == Entries(PROMPT + line, s.color)
  }

  /** After a full-buffer warning the cursor stands 63 cells before where the line would put it,
      counted from the new prompt's row. */
  ghost predicate Displaced(s: Screen, line: seq<char>) {
    && s.Valid() && |line| < BUFFER_SIZE
    && exists r | 1 <= r < HEIGHT :: s.Cursor() == r * WIDTH + |PROMPT| + |line| - (BUFFER_SIZE - 1)
  }

  /** The two never hold together: the columns differ by 17 modulo 80. */
  lemma DisplacedDoesNotEcho(s: Screen, line: seq<char>)
    requires Displaced(s, line)
    ensures !Echoes(s, line)
  {
    var r :| 1 <= r < HEIGHT && s.Cursor() == r * WIDTH + |PROMPT| + |line| - (BUFFER_SIZE - 1);
  }

  lemma PromptEchoes(s: Screen)
    requires s.Valid() && s.column == 0
    ensures Echoes(PutAll(s, PROMPT), []) && PutAll(s, PROMPT).row == s.row && PutAll(s, PROMPT).column == |PROMPT|
  {
    TextAppears(s, PROMPT);
    assert PROMPT + [] == PROMPT;
  }

  lemma EndedLine(s: Screen, text: seq<char>)
    requires s.Valid() && EndsLine(text)
    ensures PutAll(s, text).column == 0 && PutAll(s, text).row >= 1
  {
  }

  /** Enter always leaves a fresh prompt that echoes the empty line. */
  lemma EnterEchoes(s: Screen, line: seq<char>, command: seq<char>, reports: Reports)
    requires s.Valid()
    ensures Echoes(React(s, line, '\n', command, reports), [])
  {
    var next := Put(s, '\n');
    var ran := Execute(next, command, reports);
    assert ran.column == 0 by {
      if Named(command) == Unknown {
        EndedLine(Put(PutAll(PutAll(next, "Unknown command: "), command), '\n'), UNKNOWN_HINT);
      } else if Named(command) != Empty && Named(command) != Clear {
        EndedLine(next, reports(Named(command)));
      }
    }
    PromptEchoes(ran);
  }

  lemma TypedEchoes(s: Screen, line: seq<char>, c: char)
    requires Echoes(s, line) && |line| < BUFFER_SIZE - 1 && !IsControl(c)
    ensures Echoes(Put(s, c), line + [c])
  {
    hide Entries, VgaEntry;
    var start, cursor := s.row * WIDTH, s.Cursor();
    var t := Put(s, c);
    assert t == SetCell(s, cursor, VgaEntry(c, s.color)).(column := s.column + 1);
    CellAhead(s.cells, start, cursor, VgaEntry(c, s.color));
    EntriesOneMore(PROMPT + line, c, s.color);
    assert PROMPT + (line + [c]) == PROMPT + line + [c];
  }

  lemma CellAhead(cells: seq<nat>, start: nat, cursor: nat, entry: nat)
    requires start <= cursor < |cells|
    ensures cells[cursor := entry][start..cursor + 1] == cells[start..cursor] + [entry]
  {
  }

  lemma EntriesOneMore(text: seq<char>, c: char, color: nat)
    ensures Entries(text + [c], color) == Entries(text, color) + [VgaEntry(c, color)]
  {
  }

  lemma ErasedEchoes(s: Screen, line: seq<char>)
    requires Echoes(s, line) && line != []
    ensures Echoes(Put(s, BACKSPACE), line[..|line| - 1])
  {
    hide Entries, VgaEntry;
    var start, cursor := s.row * WIDTH, s.Cursor();
    var t, front := Put(s, BACKSPACE), line[..|line| - 1];
    assert t == SetCell(s, cursor - 1, Blank(s.color)).(column := s.column - 1);
    CellBehind(s.cells, start, cursor, Blank(s.color));
    EntriesFront(PROMPT + line, |PROMPT| + |front|, s.color);
    assert (PROMPT + line)[..|PROMPT| + |front|] == PROMPT + front;
  }

  lemma CellBehind(cells: seq<nat>, start: nat, cursor: nat, entry: nat)
    requires start < cursor <= |cells|
    ensures cells[cursor - 1 := entry][start..cursor - 1] == cells[start..cursor][..cursor - 1 - start]
  {
  }

  lemma EntriesFront(text: seq<char>, n: nat, color: nat)
    requires n <= |text|
    ensures Entries(text, color)[..n] == Entries(text[..n], color)
  {
  }

  lemma WarningDisplaces(s: Screen, line: seq<char>)
    requires s.Valid() && |line| == BUFFER_SIZE - 1
    ensures Displaced(PutAll(PutAll(s, FULL_WARNING), PROMPT), line)
  {
    var warned := PutAll(s, FULL_WARNING);
    EndedLine(s, FULL_WARNING);
    PromptEchoes(warned);
    var t := PutAll(warned, PROMPT);
    assert t.Cursor() == warned.row * WIDTH + |PROMPT|;
  }

  lemma DisplacedMoves(s: Screen, line: seq<char>, c: char)
    requires Displaced(s, line)
    requires (c == BACKSPACE && line != []) || (!IsControl(c) && |line| < BUFFER_SIZE - 1)
    ensures Displaced(Put(s, c), Edit(line, c))
  {
    var r :| 1 <= r < HEIGHT && s.Cursor() == r * WIDTH + |PROMPT| + |line| - (BUFFER_SIZE - 1);
    if c == BACKSPACE {
      assert Put(s, c).Cursor() == s.Cursor() - 1;
    } else {
      assert s.Cursor() < CELLS - 1;
      assert Put(s, c).Cursor() == s.Cursor() + 1;
    }
  }

  /** On a screen that echoes the line, the line can be read off the screen. */
  lemma EchoShowsLine(s: Screen, line: seq<char>, other: seq<char>)
    requires Echoes(s, line) && Echoes(s, other)
    requires forall i | 0 <= i < |line| :: line[i] as int < 256
    requires forall i | 0 <= i < |other| :: other[i] as int < 256
    ensures line == other
  {
    var n := |PROMPT|;
    forall i | 0 <= i < |line|
      ensures line[i] == other[i]
    {
      assert (PROMPT + line)[n + i] == line[i] && (PROMPT + other)[n + i] == other[i];
      assert Entries(PROMPT + line, s.color)[n + i] == Entries(PROMPT + other, s.color)[n + i];
      EntryDecodes(line[i], s.color);
      EntryDecodes(other[i], s.color);
    }
  }

  /** Echoing, cell by cell: the row reads the prompt and then the line, and the cursor follows. */
  lemma EchoMeans(s: Screen, line: seq<char>)
    ensures Echoes(s, line) <==>
      && s.Valid() && |line| < 64 && s.column == 8 + |line|
      && forall i: nat | i < 8 + |line| :: CellOf(s, s.row, i) == ("wigOSX> " + line)[i] as int % 256 + 256 * s.color
  {
    if s.Valid() && |line| < 64 && s.column == 8 + |line| {
      var text := "wigOSX> " + line;
      RowReads(s, text);
    }
  }

  lemma RowReads(s: Screen, text: seq<char>)
    requires s.Valid() && |text| == s.column
    ensures s.cells[s.row * WIDTH..s.Cursor()] == Entries(text, s.color) <==>
      forall i: nat | i < |text| :: CellOf(s, s.row, i) == text[i] as int % 256 + 256 * s.color
  {
    var shown, entries := s.cells[s.row * WIDTH..s.Cursor()], Entries(text, s.color);
    assert forall i: nat | i < |text| :: shown[i] == CellOf(s, s.row, i);
    assert forall i: nat | i < |text| :: entries[i] == text[i] as int % 256 + 256 * s.color;
    if forall i: nat | i < |text| :: CellOf(s, s.row, i) == text[i] as int % 256 + 256 * s.color {
      assert shown == entries;
    }
  }

  // ---- Keys and commands in plain text ----

  /** What each key but Enter does to line and screen. */
  lemma KeyLaw(s: Screen, line: seq<char>, c: char, command: seq<char>, reports: Reports)
    requires s.Valid() && |line| <= 63
    ensures c == '\t' ==> Edit(line, c) == line && React(s, line, c, command, reports) == s
    ensures c == '\U{0008}' && line == [] ==> Edit(line, c) == [] && React(s, line, c, command, reports) == s
    ensures c == '\U{0008}' && line != [] ==> Edit(line, c) == line[..|line| - 1] && React(s, line, c, command, reports) == Put(s, c)
    ensures c !in {'\n', '\t', '\U{0008}'} && |line| < 63 ==> Edit(line, c) == line + [c] && React(s, line, c, command, reports) == Put(s, c)
    ensures c !in {'\n', '\t', '\U{0008}'} && |line| == 63 ==>
      Edit(line, c) == line && React(s, line, c, command, reports) == PutAll(s, "\n[WARNING] Shell input buffer full.\n" + "wigOSX> ")
    ensures c == '\n' ==> Edit(line, c) == []
  {
    hide Put, PutAll;
    PutAllJoin(s, FULL_WARNING, PROMPT);
  }

  /** What is typed to have a report, one name each. */
  function NameOf(c: Command): string
    requires !c.Empty? && !c.Unknown?
  {
    match c
    case Help => "help"
    case Clear => "clear"
    case Version => "version"
    case Ticks => "ticks"
    case Irq => "irq"
    case InputCounts => "input"
    case Mem => "mem"
    case PmmSummary => "pmm"
    case PmmTest => "pmm_test"
    case Heap => "heap"
    case Paging => "paging"
    case About => "about"
    case Scroll => "scroll"
  }

  /** A line names a command exactly when it is that command's name, letter for letter. */
  lemma NamesDecide(w: seq<char>, c: Command)
    ensures !c.Empty? && !c.Unknown? ==> (Named(w) == c <==> w == NameOf(c))
    ensures Named(w) == Empty <==> w == ""
    ensures Named(w) == Unknown <==> w != "" && forall k: Command | !k.Empty? && !k.Unknown? :: w != NameOf(k)
  {
    hide NameOf, Named;
    NameOfNamed(w);
    forall k: Command | !k.Empty? && !k.Unknown?
      ensures Named(NameOf(k)) == k
    {
      NamedNameOf(k);
    }
    NamedEmpty(w);
  }

  lemma NameOfNamed(w: seq<char>)
    ensures !Named(w).Empty? && !Named(w).Unknown? ==> NameOf(Named(w)) == w
  {
  }

  lemma NamedNameOf(k: Command)
    requires !k.Empty? && !k.Unknown?
    ensures Named(NameOf(k)) == k
  {
  }

  lemma NamedEmpty(w: seq<char>)
    ensures Named(w) == Empty <==> w == ""
  {
  }

  /** What Enter prints: the report of the command named, a complaint that quotes the line, or nothing; then a prompt. */
  lemma EnterPrints(s: Screen, line: seq<char>, w: seq<char>, c: Command, reports: Reports)
    requires s.Valid()
    ensures w == "" ==> React(s, line, '\n', w, reports) == PutAll(s, "\n" + "wigOSX> ")
    ensures !c.Empty? && !c.Unknown? && !c.Clear? && w == NameOf(c) ==> React(s, line, '\n', w, reports) == PutAll(s, "\n" + reports(c) + "wigOSX> ")
    ensures Named(w) == Unknown ==>
      React(s, line, '\n', w, reports) == PutAll(s, "\n" + "Unknown command: " + w + "\n" + "Type 'help' for available commands.\n" + "wigOSX> ")
  {
    hide Put, PutAll, Named, NameOf;
    NamesDecide(w, c);
    PutAllOne(s, '\n');
    if w == "" {
      PutAllJoin(s, "\n", PROMPT);
    } else if Named(w) == Unknown {
      UnknownPrints(s, w);
    } else if !c.Empty? && !c.Unknown? && !c.Clear? && w == NameOf(c) {
      PutAllJoin(s, "\n", reports(c));
      PutAllJoin(s, "\n" + reports(c), PROMPT);
    }
  }

  lemma UnknownPrints(s: Screen, w: seq<char>)
    requires s.Valid()
    ensures PutAll(PutAll(Put(PutAll(PutAll(Put(s, '\n'), "Unknown command: "), w), '\n'), UNKNOWN_HINT), PROMPT)
         == PutAll(s, "\n" + "Unknown command: " + w + "\n" + "Type 'help' for available commands.\n" + "wigOSX> ")
  {
    hide Put, PutAll;
    PutAllOne(s, '\n');
    PutAllJoin(s, "\n", "Unknown command: ");
    PutAllJoin(s, "\n" + "Unknown command: ", w);
    PutAllOne(PutAll(s, "\n" + "Unknown command: " + w), '\n');
    PutAllJoin(s, "\n" + "Unknown command: " + w, "\n");
    PutAllJoin(s, "\n" + "Unknown command: " + w + "\n", UNKNOWN_HINT);
    PutAllJoin(s, "\n" + "Unknown command: " + w + "\n" + UNKNOWN_HINT, PROMPT);
  }

  /** "clear" leaves a blank screen with a prompt at the top left. */
  lemma ClearBlanks(s: Screen, line: seq<char>, reports: Reports)
    requires s.Valid()
    ensures var t := React(s, line, '\n', "clear", reports);
      && t.row == 0 && t.column == 8 && t.color == s.color
      && forall r: nat, c: nat | r < 25 && c < 80 ::
           CellOf(t, r, c) == (if r == 0 && c < 8 then "wigOSX> "[c] as int else 32) + 256 * s.color
  {
    var blank := Cleared(Put(s, '\n'));
    TextAppears(blank, PROMPT);
    assert Named("clear") == Clear;
    assert React(s, line, '\n', "clear", reports) == PutAll(blank, PROMPT);
    forall r: nat, c: nat | r < 25 && c < 80
      ensures CellOf(PutAll(blank, PROMPT), r, c) == (if r == 0 && c < 8 then "wigOSX> "[c] as int else 32) + 256 * s.color
    {
      PromptCell(blank, r, c);
    }
  }

  lemma PromptCell(blank: Screen, r: nat, c: nat)
    requires blank.Valid() && blank.cells == Blanks(CELLS, blank.color) && blank.row == 0 && blank.column == 0 && r < 25 && c < 80
    ensures CellOf(Shown(blank, PROMPT), r, c) == (if r == 0 && c < 8 then "wigOSX> "[c] as int else 32) + 256 * blank.color
  {
    if r == 0 && c < 8 {
      assert Shown(blank, PROMPT).cells[c] == Entries(PROMPT, blank.color)[c];
    }
  }

  // ---- Over whole sessions ----

  /** A session: the screen, the line, and whether a warning came since the last prompt of Enter. */
  datatype Session = Session(screen: Screen, line: seq<char>, warned: bool)

  /** What the reporting commands print if one runs at the n-th character of a session. */
  type ReportLog = nat -> Reports

  function Warned(warned: bool, line: seq<char>, c: char): bool {
    if c == '\n' then false else warned || (|line| == BUFFER_SIZE - 1 && ' ' <= c <= '~')
  }

  function SessionStep(x: Session, c: char, reports: Reports): (r: Session)
    requires x.screen.Valid()
    ensures r.screen.Valid()
  {
    Session(React(x.screen, x.line, c, x.line, reports), Edit(x.line, c), Warned(x.warned, x.line, c))
  }

  function SessionRun(x: Session, typed: seq<char>, log: ReportLog): (r: Session)
    requires x.screen.Valid()
    ensures r.screen.Valid()
    decreases |typed|
  {
    if typed == [] then x
    else SessionStep(SessionRun(x, typed[..|typed| - 1], log), typed[|typed| - 1], log(|typed| - 1))
  }

  lemma SessionOneMore(x: Session, typed: seq<char>, c: char, log: ReportLog)
    requires x.screen.Valid()
    ensures SessionRun(x, typed + [c], log) == SessionStep(SessionRun(x, typed, log), c, log(|typed|))
  {
    assert (typed + [c])[..|typed|] == typed;
  }

  ghost predicate EchoInv(x: Session) {
    if x.warned then Displaced(x.screen, x.line) else Echoes(x.screen, x.line)
  }

  lemma StepKeepsEcho(x: Session, c: char, reports: Reports)
    requires EchoInv(x) && Keyboard.Typable(c)
    ensures EchoInv(SessionStep(x, c, reports))
  {
    if c == '\n' {
      EnterEchoes(x.screen, x.line, x.line, reports);
    } else if c == BACKSPACE {
      if x.line != [] {
        if x.warned {
          DisplacedMoves(x.screen, x.line, c);
        } else {
          ErasedEchoes(x.screen, x.line);
        }
      }
    } else if c == '\t' {
    } else if |x.line| >= BUFFER_SIZE - 1 {
      WarningDisplaces(x.screen, x.line);
    } else if x.warned {
      DisplacedMoves(x.screen, x.line, c);
    } else {
      TypedEchoes(x.screen, x.line, c);
    }
  }

  /**
   * From the first prompt on, whatever is typed and whatever each command prints: the screen
   * shows prompt and line with the cursor after them exactly when no character was refused
   * since the last Enter.
   */
  lemma {:induction false} EchoExactly(x: Session, typed: seq<char>, log: ReportLog)
    requires Echoes(x.screen, x.line) && !x.warned
    requires forall i | 0 <= i < |typed| :: Keyboard.Typable(typed[i])
    ensures var y := SessionRun(x, typed, log);
      EchoInv(y) && (Echoes(y.screen, y.line) <==> !y.warned)
    decreases |typed|
  {
    if typed != [] {
      var front := typed[..|typed| - 1];
      EchoExactly(x, front, log);
      StepKeepsEcho(SessionRun(x, front, log), typed[|typed| - 1], log(|typed| - 1));
    }
    var y := SessionRun(x, typed, log);
    if y.warned {
      DisplacedDoesNotEcho(y.screen, y.line);
    }
  }

  /** A warning stands exactly when, since the last Enter, a printable character was typed on a line of 63. */
  lemma {:induction false} WarnedMeans(x: Session, typed: seq<char>, log: ReportLog)
    requires x.screen.Valid() && !x.warned
    ensures SessionRun(x, typed, log).warned <==>
      exists k: nat :: k < |typed| && Refused(x, typed, log, k) && '\n' !in typed[k..]
    decreases |typed|
  {
    hide React, Edit;
    if typed != [] {
      var n := |typed| - 1;
      var front, c := typed[..n], typed[n];
      WarnedMeans(x, front, log);
      assert typed == front + [c];
      forall k: nat | k < n
        ensures Refused(x, typed, log, k) <==> Refused(x, front, log, k)
        ensures '\n' !in typed[k..] <==> '\n' !in front[k..] && c != '\n'
      {
        assert typed[..k] == front[..k];
        assert typed[k..] == front[k..] + [c];
      }
      assert typed[n..] == [c];
      assert Refused(x, typed, log, n) <==> |SessionRun(x, front, log).line| == 63 && ' ' <= c <= '~';
    }
  }

  /** The k-th character is printable and finds the line full. */
  predicate Refused(x: Session, typed: seq<char>, log: ReportLog, k: nat)
    requires x.screen.Valid() && k < |typed|
  {
    ' ' <= typed[k] <= '~' && |SessionRun(x, typed[..k], log).line| == 63
  }

  /** A command typed at an empty prompt is echoed and then run, by its own name. */
  lemma CommandRuns(x: Session, w: seq<char>, log: ReportLog)
    requires x.screen.Valid() && x.line == [] && !x.warned
    requires |w| < 64 && forall i | 0 <= i < |w| :: Keyboard.Printable(w[i])
    ensures SessionRun(x, w + ['\n'], log) == Session(React(PutAll(x.screen, w), w, '\n', w, log(|w|)), [], false)
  {
    hide React, PutAll;
    TypingFills(x, w, log);
    TypingEchoes(x, w, log);
    SessionOneMore(x, w, '\n', log);
  }

  lemma {:induction false} TypingEchoes(x: Session, typed: seq<char>, log: ReportLog)
    requires x.screen.Valid() && x.line == [] && !x.warned
    requires |typed| < BUFFER_SIZE && forall i | 0 <= i < |typed| :: Keyboard.Printable(typed[i])
    ensures SessionRun(x, typed, log).screen == PutAll(x.screen, typed)
    decreases |typed|
  {
    hide Put;
    if typed != [] {
      var front, c := typed[..|typed| - 1], typed[|typed| - 1];
      TypingFills(x, front, log);
      TypingEchoes(x, front, log);
      assert Keyboard.Printable(c);
    }
  }

  /** Printable characters typed at an empty prompt fill the line until it holds 63. */
  lemma {:induction false} TypingFills(x: Session, typed: seq<char>, log: ReportLog)
    requires x.screen.Valid() && x.line == [] && !x.warned
    requires |typed| < BUFFER_SIZE && forall i | 0 <= i < |typed| :: Keyboard.Printable(typed[i])
    ensures SessionRun(x, typed, log).line == typed && !SessionRun(x, typed, log).warned
    decreases |typed|
  {
    hide React;
    if typed != [] {
      var front, c := typed[..|typed| - 1], typed[|typed| - 1];
      TypingFills(x, front, log);
      assert Keyboard.Printable(c);
      assert typed == front + [c];
    }
  }

  /** The prompt does stop echoing: 64 printable characters typed at any empty prompt do it. */
  lemma LongLineStopsEchoing(x: Session, typed: seq<char>, log: ReportLog)
    requires Echoes(x.screen, []) && x.line == [] && !x.warned
    requires |typed| == BUFFER_SIZE && forall i | 0 <= i < |typed| :: Keyboard.Printable(typed[i])
    ensures var y := SessionRun(x, typed, log);
      y.warned && y.line == typed[..BUFFER_SIZE - 1] && !Echoes(y.screen, y.line)
  {
    TypingFills(x, typed[..BUFFER_SIZE - 1], log);
    EchoExactly(x, typed, log);
  }
}
