/**
 * The foreground loop: kernel_work_run_once of work.c, the interrupts that may come between its
 * passes, and what the keys that reach it leave on the screen. (Pipeline has the same pass cut
 * into steps that interrupts may separate.)
 */
module Work {
  import opened Words
  import Keyboard
  import opened Input
  import opened Interrupts
  import opened PlainScreen
  import opened LineEditor
  import opened Shell
  import opened Pipeline
  import opened PipelineTheorems

  /** A hardware interrupt on a line, with the scancode byte waiting at the keyboard port. */
  datatype Event = Event(irq: nat, raw: nat) {
    predicate Valid() {
      irq < IRQ_COUNT && raw < 256
    }
  }

  class Foreground {
    const input: InputQueue
    const interrupts: InterruptController
    const shell: Shell
    var ifFlag: bool
    var halted: bool

    constructor (interrupts: InterruptController, shell: Shell)
      requires interrupts.Valid() && shell.Valid() && shell.buffer != interrupts.input.queue
      ensures Valid() && this.interrupts == interrupts && this.shell == shell && !ifFlag && !halted
    {
      this.input, this.interrupts, this.shell := interrupts.input, interrupts, shell;
      ifFlag, halted := false, false;
    }

    ghost predicate Valid()
      reads this, input, input.queue, interrupts, interrupts.handlers, interrupts.dispatchCounts, interrupts.input, interrupts.input.queue
      reads shell, shell.buffer, shell.terminal
    {
      && interrupts.input == input && interrupts.Valid() && shell.Valid()
      && shell.buffer != input.queue
    }

    /**
     * kernel_work_run_once, on a CPU that is running. In interrupt context it panics and touches
     * nothing. Otherwise it hands the oldest queued character to the shell with interrupts
     * enabled, or, with nothing queued, halts with interrupts enabled and changes nothing else.
     */
    method RunOnce(reports: Reports) returns (panicked: bool)
      requires Valid() && !halted
      modifies `ifFlag, `halted, input`tail, input`taken, shell`length, shell.buffer
      modifies shell.terminal`row, shell.terminal`column, shell.terminal`viewStart, shell.terminal`crtcHigh, shell.terminal`crtcLow, shell.terminal.buffer
      ensures Valid()
      ensures panicked <==> interrupts.contextDepth != 0
      ensures panicked ==> ifFlag == old(ifFlag)
      ensures panicked || old(input.Contents()) == [] ==>
        && input.Contents() == old(input.Contents()) && input.taken == old(input.taken)
        && shell.Line() == old(shell.Line()) && shell.terminal.View() == old(shell.terminal.View())
      ensures !panicked ==> ifFlag
      ensures halted <==> !panicked && old(input.Contents()) == []
      ensures !panicked && old(input.Contents()) != [] ==>
        && input.Contents() == old(input.Contents())[1..] && input.taken == old(input.taken) + 1
        && shell.Line() == Edit(old(shell.Line()), old(input.Contents())[0])
        && shell.terminal.View() == React(old(shell.terminal.View()), old(shell.Line()), old(input.Contents())[0], old(CString(shell.buffer[..])), reports)
      ensures NUL !in old(shell.Line()) ==> old(CString(shell.buffer[..])) == old(shell.Line())
    {
      hide React, Edit, CString, Queued;
      shell.LineIsText();
      if interrupts.contextDepth != 0 {
        return true;
      }
      ifFlag := false;
      var ok, ascii := input.TryReadCharacter();
      if ok {
        ifFlag := true;
        var shellPanicked := shell.HandleCharacter(ascii, interrupts.contextDepth != 0, reports);
        return shellPanicked;
      }
      ifFlag := true;
      halted := true;
      return false;
    }

    /** An interrupt taken between two passes: the gate clears IF, which IRET restores, and a halted CPU wakes. */
    method Interrupt(event: Event)
      requires Valid() && event.Valid() && ifFlag && interrupts.contextDepth == 0
      modifies `ifFlag, `halted, interrupts, interrupts.dispatchCounts
      modifies input`head, input`dropped, input`accepted, input`lost, input.queue, interrupts.keyboard
      ensures Valid() && ifFlag && !halted && interrupts.contextDepth == 0
      ensures interrupts.eoiLog == old(interrupts.eoiLog) + EoiWrites(event.irq)
      ensures interrupts.dispatches == old(interrupts.dispatches)[event.irq := old(interrupts.dispatches)[event.irq] + 1]
      ensures var typed := TypedBy(event.irq, old(interrupts.handlers[..]), old(interrupts.keyboard.View()), event.raw);
        && interrupts.keyboard.View() == typed.0
        && input.Contents() == Offered(old(input.Contents()), typed.1)
        && input.accepted == old(input.accepted) + Gained(old(input.Contents()), typed.1)
    {
      hide TypedBy, Offered, Gained, Queued;
      ifFlag, halted := false, false;
      var outcome := interrupts.IrqHandler(Some(event.irq + 32), event.raw);
      ifFlag := true;
    }

    /** What the shell shows and holds, with nothing refused yet. */
    ghost function Fresh(): (x: Session)
      requires Valid()
      reads this, input, input.queue, interrupts, interrupts.handlers, interrupts.dispatchCounts, interrupts.input, interrupts.input.queue
      reads shell, shell.buffer, shell.terminal, shell.terminal.buffer
      ensures x.screen.Valid()
    {
      Session(shell.terminal.View(), shell.Line(), false)
    }

    /** Keyboard, queue and history, with nothing delivered yet. */
    ghost function Keys(): World
      requires Valid()
      reads this, input, input.queue, interrupts, interrupts.handlers, interrupts.dispatchCounts, interrupts.input, interrupts.input.queue
      reads shell, shell.buffer, shell.terminal, shell.terminal.buffer
      reads interrupts.keyboard
    {
      World(interrupts.keyboard.View(), input.Contents(), input.accepted, [])
    }

    /**
     * Between two passes: keyboard, queue and history are w's, and shell and screen are what the
     * pure session makes of the characters delivered, which were taken since the tail stood at start.
     */
    ghost predicate Serving(first: Session, w: World, handlers: seq<Option<Handler>>, start: nat, log: ReportLog)
      reads this, input, input.queue, interrupts, interrupts.handlers, interrupts.dispatchCounts, interrupts.input, interrupts.input.queue
      reads shell, shell.buffer, shell.terminal, shell.terminal.buffer
      reads interrupts.keyboard
    {
      && Valid() && ifFlag && interrupts.contextDepth == 0 && (halted ==> input.Contents() == [])
      && interrupts.handlers[..] == handlers
      && Keys() == w.(delivered := [])
      && AllTypable(w.queue) && AllTypable(w.delivered) && NUL !in shell.Line()
      && start <= input.taken <= |input.accepted| && w.delivered == input.accepted[start..input.taken]
      && first.screen.Valid() && Fresh() == SessionRun(first, w.delivered, log).(warned := false)
    }

    /** The interrupts that come between two passes. */
    method Interrupts(events: seq<Event>, ghost first: Session, ghost w: World, ghost handlers: seq<Option<Handler>>, ghost start: nat, ghost log: ReportLog)
      requires Serving(first, w, handlers, start, log) && AllValid(events)
      modifies `ifFlag, `halted, interrupts, interrupts.dispatchCounts
      modifies input`head, input`dropped, input`accepted, input`lost, input.queue, interrupts.keyboard
      ensures Serving(first, OfferAll(w, events, handlers), handlers, start, log)
    {
      hide TypedBy, Offered, Gained, Queued, AllTypable, SessionRun, Keyboard.Press;
      NoEvents(w, handlers);
      for i := 0 to |events|
        invariant Serving(first, OfferAll(w, events[..i], handlers), handlers, start, log)
      {
        ghost var now := OfferAll(w, events[..i], handlers);
        OfferOneMore(w, events, i, handlers);
        OffersTypable(now.queue, events[i].irq, handlers, now.kbd, events[i].raw);
        Interrupt(events[i]);
        input.ContentsAre();
      }
      assert events[..|events|] == events;
    }

    /** One pass at a running CPU: a step of the pure session, or the halt. */
    method Pass(ghost first: Session, ghost w: World, ghost handlers: seq<Option<Handler>>, ghost start: nat, served: nat, log: ReportLog)
      returns (count: nat)
      requires Serving(first, w, handlers, start, log) && !halted && served == |w.delivered|
      modifies `ifFlag, `halted, input`tail, input`taken
      modifies shell`length, shell.buffer
      modifies shell.terminal`row, shell.terminal`column, shell.terminal`viewStart, shell.terminal`crtcHigh, shell.terminal`crtcLow, shell.terminal.buffer
      ensures Serving(first, Passed(w), handlers, start, log) && count == |Passed(w).delivered|
    {
      hide AllTypable, Queued, SessionRun, React, Edit, CString;
      input.ContentsAre();
      ghost var line := shell.Line();
      var panicked := RunOnce(log(served));
      count := served;
      if !halted {
        count := served + 1;
        SessionOneMore(first, w.delivered, w.queue[0], log);
        FirstTypable(w.delivered, w.queue, line);
      }
      input.ContentsAre();
    }

    /**
     * The loop of kernel_main: before its i-th pass the interrupts arrivals[i] are taken, and a
     * halted CPU makes no pass. Keyboard, queue, accepted and delivered characters are those of
     * the pure rounds; shell and screen are what the pure session makes of the characters
     * delivered; and whatever was printed on the way, the screen shows prompt and line exactly
     * when nothing was refused since the last Enter.
     */
    method Serve(arrivals: seq<seq<Event>>, log: ReportLog) returns (ghost delivered: seq<char>)
      requires Valid() && ifFlag && interrupts.contextDepth == 0 && (halted ==> input.Contents() == [])
      requires AllTypable(input.Contents()) && NUL !in shell.Line()
      requires AllRoundsValid(arrivals)
      modifies `ifFlag, `halted, interrupts, interrupts.dispatchCounts, interrupts.keyboard
      modifies input`head, input`dropped, input`accepted, input`lost, input.queue, input`tail, input`taken
      modifies shell`length, shell.buffer
      modifies shell.terminal`row, shell.terminal`column, shell.terminal`viewStart, shell.terminal`crtcHigh, shell.terminal`crtcLow, shell.terminal.buffer
      ensures Valid() && ifFlag && interrupts.contextDepth == 0 && (halted ==> input.Contents() == [])
      ensures var w := Rounds(old(Keys()), arrivals, old(interrupts.handlers[..]));
        && interrupts.keyboard.View() == w.kbd && input.Contents() == w.queue && input.accepted == w.accepted && delivered == w.delivered
      ensures old(input.taken) <= input.taken <= |input.accepted| && delivered == input.accepted[old(input.taken)..input.taken]
      ensures var y := SessionRun(old(Fresh()), delivered, log);
        && shell.terminal.View() == y.screen && shell.Line() == y.line
        && (Echoes(old(shell.terminal.View()), old(shell.Line())) ==> (Echoes(y.screen, y.line) <==> !y.warned))
    {
      hide AllTypable, Queued, SessionRun, Echoes, OfferAll, AllValid;
      ghost var first, before, handlers, start := Fresh(), Keys(), interrupts.handlers[..], input.taken;
      var served := 0;
      NothingTyped(first, log);
      NoRounds(before, handlers);
      input.ContentsAre();
      for i := 0 to |arrivals|
        invariant Serving(first, Rounds(before, arrivals[..i], handlers), handlers, start, log)
        invariant served == |Rounds(before, arrivals[..i], handlers).delivered|
      {
        RoundsOneMore(before, arrivals, i, handlers);
        ghost var w := Rounds(before, arrivals[..i], handlers);
        Interrupts(arrivals[i], first, w, handlers, start, log);
        if !halted {
          served := Pass(first, OfferAll(w, arrivals[i], handlers), handlers, start, served, log);
        }
      }
      assert arrivals[..|arrivals|] == arrivals;
      delivered := Rounds(before, arrivals, handlers).delivered;
      EchoOrNot(first, delivered, log);
    }

    /** Interrupt services and queue from scratch, with the timer and the keyboard registered. */
    method SetUp()
      requires Valid()
      modifies interrupts, interrupts.handlers, interrupts.dispatchCounts, input
      ensures Valid() && interrupts.contextDepth == 0 && interrupts.handlers[..] == KERNEL_HANDLERS
      ensures input.Contents() == [] && input.accepted == [] && input.taken == 0
    {
      hide Queued;
      interrupts.Initialize();
      input.Initialize();
      var timer := interrupts.RegisterIrq(0, Some(PitHandler));
      var keys := interrupts.RegisterIrq(1, Some(KeyboardHandler));
      assert timer && keys;
    }

    /**
     * kernel_main from interrupts_initialize on: registry and queue are reset, the timer and the
     * keyboard registered, the shell greets and prompts, interrupts are enabled and the loop
     * runs. Whatever is typed, however interrupts arrive and whatever the commands print, the
     * screen shows prompt and line exactly when no character was refused since the last Enter.
     */
    method KernelMain(arrivals: seq<seq<Event>>, log: ReportLog) returns (ghost delivered: seq<char>)
      requires Valid() && !halted && !ifFlag
      requires AllRoundsValid(arrivals)
      modifies `ifFlag, `halted, interrupts, interrupts.handlers, interrupts.dispatchCounts, interrupts.keyboard
      modifies input, input.queue
      modifies shell`length, shell.buffer
      modifies shell.terminal`row, shell.terminal`column, shell.terminal`viewStart, shell.terminal`crtcHigh, shell.terminal`crtcLow, shell.terminal.buffer
      ensures Valid() && (halted ==> input.Contents() == [])
      ensures var w := Rounds(World(old(interrupts.keyboard.View()), [], [], []), arrivals, KERNEL_HANDLERS);
        && interrupts.keyboard.View() == w.kbd && input.Contents() == w.queue && input.accepted == w.accepted && delivered == w.delivered
      ensures var y := SessionRun(FirstPrompt(old(shell.terminal.View())), delivered, log);
        && shell.terminal.View() == y.screen && shell.Line() == y.line
        && (Echoes(shell.terminal.View(), shell.Line()) <==> !y.warned)
    {
      hide Queued, SessionRun, Echoes, PutAll, Rounds, Holds;
      SetUp();
      shell.Initialize();
      ifFlag := true;
      delivered := Serve(arrivals, log);
    }
  }

  // ---- The rounds of the loop, on values ----

  /** Keyboard state, queued characters, and the characters accepted and delivered so far. */
  datatype World = World(kbd: Keyboard.Modifiers, queue: seq<char>, accepted: seq<char>, delivered: seq<char>)

  /** An interrupt: the character it types, if any, joins queue and history if there is room. */
  function OfferOne(w: World, e: Event, handlers: seq<Option<Handler>>): World
    requires e.Valid()
  {
    var (kbd, typed) := TypedBy(e.irq, handlers, w.kbd, e.raw);
    w.(kbd := kbd, queue := Offered(w.queue, typed), accepted := w.accepted + Gained(w.queue, typed))
  }

  function OfferAll(w: World, events: seq<Event>, handlers: seq<Option<Handler>>): World
    requires AllValid(events)
    decreases |events|
  {
    if events == [] then w
    else
      ValidFront(events);
      OfferOne(OfferAll(w, events[..|events| - 1], handlers), events[|events| - 1], handlers)
  }

  /** A pass: the oldest character, if any, is delivered. */
  function Passed(w: World): World {
    if w.queue == [] then w else w.(queue := w.queue[1..], delivered := w.delivered + [w.queue[0]])
  }

  /** In each round the interrupts come first, then one pass is made. */
  function Rounds(w: World, arrivals: seq<seq<Event>>, handlers: seq<Option<Handler>>): World
    requires AllRoundsValid(arrivals)
    decreases |arrivals|
  {
    if arrivals == [] then w
    else
      ValidRoundsFront(arrivals);
      Passed(OfferAll(Rounds(w, arrivals[..|arrivals| - 1], handlers), arrivals[|arrivals| - 1], handlers))
  }

  lemma ValidFront(events: seq<Event>)
    requires AllValid(events) && events != []
    ensures AllValid(events[..|events| - 1]) && events[|events| - 1].Valid()
  {
  }

  lemma ValidRoundsFront(arrivals: seq<seq<Event>>)
    requires AllRoundsValid(arrivals) && arrivals != []
    ensures AllRoundsValid(arrivals[..|arrivals| - 1]) && AllValid(arrivals[|arrivals| - 1])
  {
  }

  lemma NoEvents(w: World, handlers: seq<Option<Handler>>)
    ensures OfferAll(w, [], handlers) == w
  {
  }

  lemma NoRounds(w: World, handlers: seq<Option<Handler>>)
    ensures Rounds(w, [], handlers) == w
  {
  }

  lemma OfferOneMore(w: World, events: seq<Event>, i: nat, handlers: seq<Option<Handler>>)
    requires AllValid(events) && i < |events|
    ensures AllValid(events[..i]) && AllValid(events[..i + 1])
    ensures OfferAll(w, events[..i + 1], handlers) == OfferOne(OfferAll(w, events[..i], handlers), events[i], handlers)
  {
    assert events[..i + 1][..i] == events[..i];
  }

  lemma RoundsOneMore(w: World, arrivals: seq<seq<Event>>, i: nat, handlers: seq<Option<Handler>>)
    requires AllRoundsValid(arrivals) && i < |arrivals|
    ensures AllRoundsValid(arrivals[..i]) && AllRoundsValid(arrivals[..i + 1]) && AllValid(arrivals[i])
    ensures Rounds(w, arrivals[..i + 1], handlers) == Passed(OfferAll(Rounds(w, arrivals[..i], handlers), arrivals[i], handlers))
  {
    assert arrivals[..i + 1][..i] == arrivals[..i];
  }

  ghost predicate AllRoundsValid(arrivals: seq<seq<Event>>) {
    forall i | 0 <= i < |arrivals| :: AllValid(arrivals[i])
  }

  /** Rounds neither lose nor invent: what was queued or accepted is delivered or queued, in order, and never more than 64 wait. */
  lemma {:induction false} RoundsConserve(w: World, arrivals: seq<seq<Event>>, handlers: seq<Option<Handler>>)
    requires AllRoundsValid(arrivals) && |w.queue| <= 64 && w.accepted == w.delivered + w.queue
    ensures var v := Rounds(w, arrivals, handlers); v.accepted == v.delivered + v.queue && |v.queue| <= 64
    decreases |arrivals|
  {
    hide OfferAll;
    if arrivals != [] {
      var front, last := arrivals[..|arrivals| - 1], arrivals[|arrivals| - 1];
      ValidRoundsFront(arrivals);
      RoundsConserve(w, front, handlers);
      OffersConserve(Rounds(w, front, handlers), last, handlers);
    }
  }

  lemma {:induction false} OffersConserve(w: World, events: seq<Event>, handlers: seq<Option<Handler>>)
    requires AllValid(events) && |w.queue| <= 64 && w.accepted == w.delivered + w.queue
    ensures var v := OfferAll(w, events, handlers); v.accepted == v.delivered + v.queue && |v.queue| <= 64
    decreases |events|
  {
    hide TypedBy;
    if events != [] {
      ValidFront(events);
      OffersConserve(w, events[..|events| - 1], handlers);
    }
  }

  /** Rounds without interrupts deliver the oldest characters, one each. */
  lemma {:induction false} QuietRounds(w: World, n: nat, handlers: seq<Option<Handler>>)
    requires n <= |w.queue|
    ensures Rounds(w, Quiet(n), handlers) == w.(queue := w.queue[n..], delivered := w.delivered + w.queue[..n])
    decreases n
  {
    if n > 0 {
      QuietRounds(w, n - 1, handlers);
      assert Quiet(n)[..n - 1] == Quiet(n - 1);
    }
  }

  ghost function Quiet(n: nat): (arrivals: seq<seq<Event>>)
    ensures |arrivals| == n && AllRoundsValid(arrivals)
  {
    seq(n, _ => [])
  }

  /**
   * A key per round is never too fast: every character the keyboard types is accepted and
   * delivered in its own round, and nothing is left waiting.
   */
  lemma {:induction false} KeyPerRound(kbd: Keyboard.Modifiers, raws: seq<nat>)
    requires Keyboard.ValidScancodes(raws)
    ensures Rounds(World(kbd, [], [], []), KeyRounds(raws), KERNEL_HANDLERS)
         == World(Keyboard.PressAll(kbd, raws), [], Keyboard.TypedAll(kbd, raws), Keyboard.TypedAll(kbd, raws))
    decreases |raws|
  {
    hide Keyboard.Press;
    if raws != [] {
      var n := |raws| - 1;
      var front, last := raws[..n], raws[n];
      assert Keyboard.ValidScancodes(front);
      KeyPerRound(kbd, front);
      Keyboard.TypedOneMore(kbd, front, last);
      assert raws == front + [last];
      assert KeyRounds(raws)[..n] == KeyRounds(front) && KeyRounds(raws)[n] == [Event(1, last)];
      var w := World(Keyboard.PressAll(kbd, front), [], Keyboard.TypedAll(kbd, front), Keyboard.TypedAll(kbd, front));
      OneKey(w, last);
    }
  }

  ghost function KeyRounds(raws: seq<nat>): (arrivals: seq<seq<Event>>)
    requires Keyboard.ValidScancodes(raws)
    ensures |arrivals| == |raws| && AllRoundsValid(arrivals)
  {
    seq(|raws|, i requires 0 <= i < |raws| => [Event(1, raws[i])])
  }

  lemma OneKey(w: World, raw: nat)
    requires w.queue == [] && raw < 256
    ensures var (kbd, typed) := Keyboard.Press(w.kbd, raw);
      var chars := match typed case None => [] case Some(c) => [c];
      Passed(OfferAll(w, [Event(1, raw)], KERNEL_HANDLERS)) == World(kbd, [], w.accepted + chars, w.delivered + chars)
  {
    hide Keyboard.Press;
    KernelDispatch(1, w.kbd, raw);
    assert [Event(1, raw)][..0] == [];
  }

  ghost predicate AllValid(events: seq<Event>) {
    forall i | 0 <= i < |events| :: events[i].Valid()
  }

  ghost predicate AllTypable(chars: seq<char>) {
    forall i | 0 <= i < |chars| :: Keyboard.Typable(chars[i])
  }

  /** The session shell_initialize starts on a screen. */
  function FirstPrompt(s: Screen): (x: Session)
    requires s.Valid()
    ensures x.screen.Valid()
  {
    Session(PutAll(PutAll(PutAll(PutAll(s, STAGE_LABEL), READY), INVITATION), PROMPT), [], false)
  }

  /** The first screen, in plain text. */
  lemma GreetingLaw(s: Screen)
    requires s.Valid()
    ensures FirstPrompt(s).screen == PutAll(s, "Stage 16.1: Initial kernel heap backing region" + " shell ready.\n" + "Type 'help' for commands.\n" + "wigOSX> ")
    ensures FirstPrompt(s).line == [] && !FirstPrompt(s).warned
  {
    hide PutAll;
    PutAllJoin(s, STAGE_LABEL, READY);
    PutAllJoin(s, STAGE_LABEL + READY, INVITATION);
    PutAllJoin(s, STAGE_LABEL + READY + INVITATION, PROMPT);
  }

  lemma OffersTypable(contents: seq<char>, irq: nat, handlers: seq<Option<Handler>>, m: Keyboard.Modifiers, raw: nat)
    requires raw < 256 && AllTypable(contents)
    ensures AllTypable(Offered(contents, TypedBy(irq, handlers, m, raw).1))
  {
    hide Keyboard.Press, Keyboard.Typable;
    if Keyboard.Press(m, raw).1.Some? {
      Keyboard.KeyboardAlphabet(m, raw);
    }
  }

  lemma FirstTypable(before: seq<char>, waiting: seq<char>, line: seq<char>)
    requires AllTypable(before) && AllTypable(waiting) && waiting != [] && NUL !in line
    ensures AllTypable(before + [waiting[0]]) && AllTypable(waiting[1..]) && NUL !in Edit(line, waiting[0])
  {
    assert Keyboard.Typable(waiting[0]);
  }

  lemma NothingTyped(first: Session, log: ReportLog)
    requires first.screen.Valid()
    ensures SessionRun(first, [], log) == first && AllTypable([])
  {
  }

  lemma EchoOrNot(first: Session, typed: seq<char>, log: ReportLog)
    requires first.screen.Valid() && !first.warned && AllTypable(typed)
    ensures var y := SessionRun(first, typed, log);
      Echoes(first.screen, first.line) ==> (Echoes(y.screen, y.line) <==> !y.warned)
  {
    if Echoes(first.screen, first.line) {
      EchoExactly(first, typed, log);
    }
  }

  /** Every character that reaches the shell is one the keyboard can type. */
  lemma DeliveredIsTypable(cfg: Config, slots: Slots, labels: seq<Label>)
    ensures AllTypable(After(cfg, slots, labels).log.delivered)
  {
    var m := After(cfg, slots, labels);
    Conservation(cfg, slots, labels);
    KeptAndRejected(m.log.translated, m.log.kept);
    Keyboard.TypedAlphabet(Keyboard.RELEASED_MODIFIERS, m.log.scancodes);
    hide Keyboard.Typable, Run, Keep, Waiting, InFlight;
    forall i | 0 <= i < |m.log.delivered|
      ensures Keyboard.Typable(m.log.delivered[i])
    {
      assert m.log.delivered[i] in m.log.delivered + InFlight(m) + Waiting(m);
    }
  }

  /**
   * From keys to screen: for every interleaving of key presses with the foreground, and whatever
   * each command prints, the screen driven by what was delivered shows prompt and line exactly
   * when no character was refused since the last Enter.
   */
  lemma ScreenFollowsKeys(cfg: Config, slots: Slots, labels: seq<Label>, first: Session, log: ReportLog)
    requires Echoes(first.screen, first.line) && !first.warned
    ensures var y := SessionRun(first, After(cfg, slots, labels).log.delivered, log);
      Echoes(y.screen, y.line) <==> !y.warned
  {
    DeliveredIsTypable(cfg, slots, labels);
    EchoExactly(first, After(cfg, slots, labels).log.delivered, log);
  }
}
