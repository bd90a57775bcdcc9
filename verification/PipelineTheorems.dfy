/**
 * What holds of every run of the keystroke pipeline.
 */
module PipelineTheorems {
  import opened Words
  import opened Keyboard
  import opened Input
  import opened Pipeline
  import opened Interrupts

  /** The machine after any labels from boot. */
  function After(cfg: Config, slots: Slots, labels: seq<Label>): Machine {
    Run(cfg, Initial(slots), labels)
  }

  function Waiting(m: Machine): seq<char> {
    Queued(m.ring.slots, m.ring.head, m.ring.tail)
  }

  /** The character removed from the queue but not yet given to the shell. */
  function InFlight(m: Machine): seq<char> {
    if m.fore.Unmask? || m.fore.Shell? then [m.fore.ascii] else []
  }

  /**
   * No accepted character is lost, duplicated, reordered or replaced by a stale slot, however
   * interrupts fall between the loads and stores of the consumer, masked or not, and however
   * often the counters wrap: delivered, in flight and queued characters always concatenate to
   * the accepted ones, and at most 64 wait.
   */
  lemma NoLostInput(cfg: Config, slots: Slots, labels: seq<Label>)
    ensures var m := After(cfg, slots, labels);
      m.log.delivered + InFlight(m) + Waiting(m) == m.log.accepted && |Waiting(m)| <= 64
  {
    hide Run, Holds, Queued, IrqLocals, CountInv, KeyInv, ContextInv;
    RunKeepsInv(cfg, slots, labels);
    var m := After(cfg, slots, labels);
    HoldsBounds(m.ring.slots, m.ring.head, m.ring.tail, m.log.accepted, Taken(m));
    HoldsQueued(m.ring.slots, m.ring.head, m.ring.tail, m.log.accepted, Taken(m));
    Rejoin(m.log.accepted, |m.log.delivered|, InFlight(m));
  }

  lemma Rejoin(all: seq<char>, n: nat, middle: seq<char>)
    requires n + |middle| <= |all| && |middle| <= 1
    requires middle != [] ==> middle[0] == all[n]
    ensures all[..n] + middle + all[n + |middle|..] == all
  {
  }

  /**
   * Conservation, from scancodes to shell. The keyboard's characters for the scancodes read are
   * each accepted, in order, or counted as dropped (by a counter that saturates instead of
   * wrapping), except the one a handler is queueing.
   */
  lemma Conservation(cfg: Config, slots: Slots, labels: seq<Label>)
    ensures var m := After(cfg, slots, labels);
      && ValidScancodes(m.log.scancodes)
      && m.log.translated == TypedAll(RELEASED_MODIFIERS, m.log.scancodes)
      && |m.log.kept| == |m.log.translated| - (if m.irqs != [] && Queueing(m.irqs[0]) then 1 else 0)
      && m.log.delivered + InFlight(m) + Waiting(m) == Keep(m.log.translated, m.log.kept)
      && |m.log.kept| == |m.log.accepted| + m.log.lost
      && m.ring.dropped == (if m.log.lost <= 0xFFFF_FFFF then m.log.lost else 0xFFFF_FFFF)
  {
    RunKeepsInv(cfg, slots, labels);
    NoLostInput(cfg, slots, labels);
    var m := After(cfg, slots, labels);
    KeptAndRejected(m.log.translated, m.log.kept);
  }

  lemma {:induction false} KeptAndRejected(chars: seq<char>, kept: seq<bool>)
    requires |kept| <= |chars|
    ensures |Keep(chars, kept)| + Rejected(kept) == |kept|
    ensures forall c | c in Keep(chars, kept) :: c in chars
    decreases |kept|
  {
    if kept != [] {
      KeptAndRejected(chars, kept[..|kept| - 1]);
    }
  }

  /** A pending count read without masking is exact for the moment head was loaded, and at most 64. */
  lemma PendingReadsExact(cfg: Config, slots: Slots, labels: seq<Label>, i: nat)
    requires i < |After(cfg, slots, labels).log.reports|
    ensures var r := After(cfg, slots, labels).log.reports[i]; r.count == r.exact <= 64
  {
    RunKeepsInv(cfg, slots, labels);
  }

  /** The exact count a report is held to is the number of characters waiting when head is loaded. */
  lemma ExactMeansWaiting(cfg: Config, slots: Slots, labels: seq<Label>)
    requires var m := After(cfg, slots, labels); m.fore.Command? && m.irqs == [] && !m.cpu.halted
    ensures var m := After(cfg, slots, labels);
      Next(cfg, m, StepFore(true)).fore == PendingTail(m.ring.head, |Waiting(m)|)
  {
    RunKeepsInv(cfg, slots, labels);
    var m := After(cfg, slots, labels);
    HoldsBounds(m.ring.slots, m.ring.head, m.ring.tail, m.log.accepted, Taken(m));
    HoldsQueued(m.ring.slots, m.ring.head, m.ring.tail, m.log.accepted, Taken(m));
  }

  /** The second load completes the read: one report is made, and its count is that number. */
  lemma PendingReadReports(cfg: Config, slots: Slots, labels: seq<Label>, query: bool)
    requires var m := After(cfg, slots, labels); m.fore.PendingTail? && m.irqs == [] && !m.cpu.halted
    ensures var m := After(cfg, slots, labels);
      var n := Next(cfg, m, StepFore(query));
      n.log.reports == m.log.reports + [Report(m.fore.exact, m.fore.exact)] && n.fore == Command
  {
    hide Run, Holds, CountInv, KeyInv, IrqLocals, Pending;
    RunKeepsInv(cfg, slots, labels);
  }

  /**
   * Interrupt discipline: no panic on context is ever reached, foreground steps run only at
   * depth 0, handlers do not nest, and outside handlers every interrupt that arrived has been
   * acknowledged exactly once, in order.
   */
  lemma ContextDiscipline(cfg: Config, slots: Slots, labels: seq<Label>)
    ensures var m := After(cfg, slots, labels);
      && !m.panicked && m.depth <= 1 && |m.irqs| <= 1
      && (m.irqs == [] ==> m.depth == 0 && m.log.eois == m.log.arrivals)
      && (m.irqs != [] && !m.irqs[0].Enter? && !m.irqs[0].Return? ==> m.depth == 1)
      && (m.irqs != [] && (m.irqs[0].Leave? || m.irqs[0].Return?) ==> m.log.eois == m.log.arrivals)
      && (m.irqs != [] && !m.irqs[0].Leave? && !m.irqs[0].Return? ==> m.log.eois + [m.irqs[0].irq] == m.log.arrivals)
  {
    RunKeepsInv(cfg, slots, labels);
  }

  // ---- No lost wakeup ----

  /** A halted CPU never leaves a character waiting. */
  ghost predicate NeverSleepsOnInput(cfg: Config) {
    forall slots: Slots, labels: seq<Label> | After(cfg, slots, labels).cpu.halted :: Waiting(After(cfg, slots, labels)) == []
  }

  lemma KernelNeverSleepsOnInput()
    ensures NeverSleepsOnInput(KERNEL)
  {
    forall slots: Slots, labels: seq<Label> | After(KERNEL, slots, labels).cpu.halted
      ensures Waiting(After(KERNEL, slots, labels)) == []
    {
      var m := After(KERNEL, slots, labels);
      RunKeepsInv(KERNEL, slots, labels);
      HoldsQueued(m.ring.slots, m.ring.head, m.ring.tail, m.log.accepted, Taken(m));
    }
  }

  lemma RunLast(cfg: Config, m: Machine, labels: seq<Label>, l: Label)
    ensures Run(cfg, m, labels + [l]) == Next(cfg, Run(cfg, m, labels), l)
  {
    assert (labels + [l])[..|labels|] == labels;
  }

  const SCANCODE_A: nat := 0x1E

  /** A run of n handler steps. */
  function HandlerSteps(m: Machine, n: nat): Machine
    decreases n
  {
    if n == 0 then m else HandlerSteps(Next(KERNEL, m, StepIrq), n - 1)
  }

  lemma HandlersIgnoreConfig(cfg: Config, m: Machine)
    ensures Next(cfg, m, StepIrq) == Next(KERNEL, m, StepIrq)
  {
    hide IrqStep;
  }

  lemma {:induction false} HandlerStepsRun(cfg: Config, start: Machine, labels: seq<Label>, n: nat) returns (longer: seq<Label>)
    ensures Run(cfg, start, longer) == HandlerSteps(Run(cfg, start, labels), n)
    decreases n
  {
    hide Next, Run;
    HandlersIgnoreConfig(cfg, Run(cfg, start, labels));
    if n == 0 {
      longer := labels;
    } else {
      RunLast(cfg, start, labels, StepIrq);
      longer := HandlerStepsRun(cfg, start, labels + [StepIrq], n - 1);
    }
  }

  lemma TypedA()
    ensures TypedBy(1, KERNEL_HANDLERS, RELEASED_MODIFIERS, SCANCODE_A) == (RELEASED_MODIFIERS, Some('a'))
  {
    ReleaseBit(SCANCODE_A);
  }

  lemma OneMore(m: Machine, m': Machine, n: nat)
    requires n > 0 && Next(KERNEL, m, StepIrq) == m'
    ensures HandlerSteps(m, n) == HandlerSteps(m', n - 1)
  {
  }

  lemma NoMore(m: Machine)
    ensures HandlerSteps(m, 0) == m
  {
  }

  lemma AcknowledgeStep(m: Machine, irq: nat)
    requires !m.panicked && m.irqs == [Acknowledge(irq)]
    ensures Next(KERNEL, m, StepIrq) == m.(irqs := [Leave(irq)], log := m.log.(eois := m.log.eois + [irq]))
  {
  }

  lemma LeaveStep(m: Machine, irq: nat)
    requires !m.panicked && m.irqs == [Leave(irq)] && m.depth == 1
    ensures Next(KERNEL, m, StepIrq) == m.(irqs := [Return(irq)], depth := 0)
  {
  }

  lemma ReturnStep(m: Machine, irq: nat)
    requires !m.panicked && m.irqs == [Return(irq)]
    ensures Next(KERNEL, m, StepIrq) == m.(irqs := [], cpu := m.cpu.(ifFlag := true))
  {
  }

  /** Acknowledgement and return. */
  lemma HandlerReturns(m: Machine, irq: nat)
    requires !m.panicked && m.irqs == [Acknowledge(irq)] && m.depth == 1
    ensures HandlerSteps(m, 3) ==
      m.(depth := 0, irqs := [], cpu := m.cpu.(ifFlag := true), log := m.log.(eois := m.log.eois + [irq]))
  {
    hide HandlerSteps, Next;
    var m1 := m.(irqs := [Leave(irq)], log := m.log.(eois := m.log.eois + [irq]));
    AcknowledgeStep(m, irq);
    OneMore(m, m1, 3);
    var m2 := m1.(irqs := [Return(irq)], depth := 0);
    LeaveStep(m1, irq);
    OneMore(m1, m2, 2);
    ReturnStep(m2, irq);
    var m3 := m2.(irqs := [], cpu := m.cpu.(ifFlag := true));
    OneMore(m2, m3, 1);
    NoMore(m3);
  }

  /** A key pressed while the queue is empty, and its whole handler run. */
  lemma KeyPressRun(cfg: Config, slots: Slots, labels: seq<Label>) returns (longer: seq<Label>)
    requires var m := After(cfg, slots, labels);
      AcceptsInterrupt(cfg, m) && m.irqs == [] && m.kbd == RELEASED_MODIFIERS && Waiting(m) == []
    ensures var m, n := After(cfg, slots, labels), After(cfg, slots, longer);
      n == m.(cpu := Cpu(true, false, false), ring := n.ring, log := n.log) && Waiting(n) == ['a']
  {
    hide Run, HandlerSteps, RingInv, IrqLocals, CountInv, KeyInv, Queued, IrqStep, TypedBy;
    var m := After(cfg, slots, labels);
    RunKeepsInv(cfg, slots, labels);
    RunLast(cfg, Initial(slots), labels, Arrive(1, SCANCODE_A));
    var arrived := labels + [Arrive(1, SCANCODE_A)];
    RunKeepsInv(cfg, slots, arrived);
    TypedA();
    HandlerMatchesService(After(cfg, slots, arrived), 1, SCANCODE_A);
    longer := HandlerStepsRun(cfg, Initial(slots), arrived, 9);
  }

  /** The empty check of an idle foreground loop: five steps from boot. */
  lemma CheckedEmpty(cfg: Config, slots: Slots) returns (labels: seq<Label>)
    ensures After(cfg, slots, labels) == Initial(slots).(fore := StiBeforeHalt, cpu := Cpu(!cfg.masksCheck, false, false))
  {
    hide Run;
    var fore := StepFore(false);
    var m0 := Initial(slots);
    assert Run(cfg, m0, []) == m0 by {
      RunNothing(cfg, m0);
    }
    RunLast(cfg, m0, [], fore);
    RunLast(cfg, m0, [] + [fore], fore);
    RunLast(cfg, m0, [] + [fore] + [fore], fore);
    RunLast(cfg, m0, [] + [fore] + [fore] + [fore], fore);
    labels := [] + [fore] + [fore] + [fore] + [fore];
  }

  lemma RunNothing(cfg: Config, m: Machine)
    ensures Run(cfg, m, []) == m
  {
  }

  /** Checking with interrupts enabled: a key pressed after the check is slept on. */
  lemma UnmaskedCheckSleeps(cfg: Config, slots: Slots)
    requires !cfg.masksCheck
    ensures !NeverSleepsOnInput(cfg)
  {
    hide Run;
    var start, fore := Initial(slots), StepFore(false);
    var checked := CheckedEmpty(cfg, slots);
    var pressed := KeyPressRun(cfg, slots, checked);
    RunLast(cfg, start, pressed, fore);
    RunLast(cfg, start, pressed + [fore], fore);
    assert Waiting(After(cfg, slots, pressed + [fore] + [fore])) == ['a'];
  }

  /** STI that takes effect at once: a key pressed between STI and HLT is slept on. */
  lemma ImmediateStiSleeps(cfg: Config, slots: Slots)
    requires cfg.masksCheck && !cfg.delaysSti
    ensures !NeverSleepsOnInput(cfg)
  {
    hide Run;
    var start, fore := Initial(slots), StepFore(false);
    var checked := CheckedEmpty(cfg, slots);
    RunLast(cfg, start, checked, fore);
    var pressed := KeyPressRun(cfg, slots, checked + [fore]);
    RunLast(cfg, start, pressed, fore);
    assert Waiting(After(cfg, slots, pressed + [fore])) == ['a'];
  }

  /** Both halves of the idle protocol are needed, and together they suffice. */
  lemma IdleProtocol(cfg: Config)
    ensures NeverSleepsOnInput(cfg) <==> cfg.masksCheck && cfg.delaysSti
  {
    if cfg == KERNEL {
      KernelNeverSleepsOnInput();
    } else {
      var slots: Slots := seq(CAPACITY, _ => 'x');
      if cfg.masksCheck {
        ImmediateStiSleeps(cfg, slots);
      } else {
        UnmaskedCheckSleeps(cfg, slots);
      }
    }
  }

  // ---- Bounded delivery ----

  /**
   * Progress of the calls made since s, which began a call with n characters queued: until
   * those n are used up, every completed call delivered exactly one.
   */
  ghost predicate OnePerCall(s: Machine, t: Machine) {
    var n, j := |s.log.accepted| - |s.log.delivered|, t.log.calls - s.log.calls;
    && s.log.accepted <= t.log.accepted && 0 <= j
    && (j < n ==>
          && |t.log.delivered| == |s.log.delivered| + j + (if t.fore.Command? || t.fore.PendingTail? then 1 else 0)
          && !t.fore.StiBeforeHalt? && !t.fore.Halt? && !t.cpu.halted)
    && (j == n && t.fore.Call? ==> |t.log.delivered| == |s.log.delivered| + n)
  }

  lemma OnePerCallStep(cfg: Config, s: Machine, t: Machine, l: Label)
    requires Inv(t) && OnePerCall(s, t) && s.log.delivered <= s.log.accepted
    ensures OnePerCall(s, Next(cfg, t, l))
  {
    if l.StepFore? {
      if t.irqs == [] && !t.cpu.halted {
        OnePerCallFore(cfg, s, t, l.query);
      }
    } else {
      OnePerCallInterrupt(cfg, s, t, l);
    }
  }

  lemma OnePerCallFore(cfg: Config, s: Machine, t: Machine, query: bool)
    requires Inv(t) && OnePerCall(s, t) && s.log.delivered <= s.log.accepted && t.irqs == [] && !t.cpu.halted
    ensures OnePerCall(s, ForeStep(cfg, t.(cpu := t.cpu.(shadow := false)), query))
  {
    hide Holds, QueueIndex, Wrap32, Pending, CountInv, KeyInv, IrqLocals;
    HoldsBounds(t.ring.slots, t.ring.head, t.ring.tail, t.log.accepted, Taken(t));
  }

  lemma OnePerCallInterrupt(cfg: Config, s: Machine, t: Machine, l: Label)
    requires OnePerCall(s, t) && !l.StepFore?
    ensures OnePerCall(s, Next(cfg, t, l))
  {
    hide Next;
    InterruptsOnlyAccept(cfg, t, l);
  }

  /** Interrupt arrivals and handler steps leave the foreground where it is and extend what was accepted. */
  lemma InterruptsOnlyAccept(cfg: Config, t: Machine, l: Label)
    requires !l.StepFore?
    ensures var n := Next(cfg, t, l);
      && n.fore == t.fore && n.log.delivered == t.log.delivered && n.log.calls == t.log.calls
      && t.log.accepted <= n.log.accepted && (n.cpu.halted ==> t.cpu.halted)
  {
    hide Press, QueueIndex, Wrap32, Pending, ForeStep, IncrementSaturating;
  }

  lemma {:induction false} OnePerCallRun(cfg: Config, s: Machine, labels: seq<Label>)
    requires Inv(s) && s.fore.Call? && (s.cpu.halted ==> |s.log.accepted| == |s.log.delivered|)
    ensures Inv(Run(cfg, s, labels)) && OnePerCall(s, Run(cfg, s, labels))
    decreases |labels|
  {
    HoldsBounds(s.ring.slots, s.ring.head, s.ring.tail, s.log.accepted, Taken(s));
    if labels != [] {
      var front, last := labels[..|labels| - 1], labels[|labels| - 1];
      OnePerCallRun(cfg, s, front);
      NextKeepsInv(cfg, Run(cfg, s, front), last);
      OnePerCallStep(cfg, s, Run(cfg, s, front), last);
    }
  }

  /**
   * Bounded delivery: from any reachable start of kernel_work_run_once, the character at queue
   * position k is delivered by exactly the (k + 1)-th call from then on, whatever arrives.
   */
  lemma BoundedDelivery(slots: Slots, before: seq<Label>, after: seq<Label>, k: nat)
    requires var s := After(KERNEL, slots, before); s.fore.Call? && k < |Waiting(s)|
    requires Run(KERNEL, After(KERNEL, slots, before), after).fore.Call?
    ensures var s := After(KERNEL, slots, before);
      var t := Run(KERNEL, s, after);
      && (t.log.calls == s.log.calls + k + 1 ==>
            |t.log.delivered| == |s.log.delivered| + k + 1 && t.log.delivered[|s.log.delivered| + k] == Waiting(s)[k])
      && (t.log.calls <= s.log.calls + k ==> |t.log.delivered| <= |s.log.delivered| + k)
  {
    hide Run, Holds, Queued, IrqLocals, CountInv, KeyInv, ForeLocals;
    var s := After(KERNEL, slots, before);
    RunKeepsInv(KERNEL, slots, before);
    HoldsQueued(s.ring.slots, s.ring.head, s.ring.tail, s.log.accepted, Taken(s));
    OnePerCallRun(KERNEL, s, after);
    var t := Run(KERNEL, s, after);
    HoldsBounds(t.ring.slots, t.ring.head, t.ring.tail, t.log.accepted, Taken(t));
  }

  // ---- The interleaved steps and the sequential service ----

  lemma LoadHeadStep(m: Machine, irq: nat, c: char)
    requires !m.panicked && m.irqs == [EnqueueHead(irq, c)]
    ensures Next(KERNEL, m, StepIrq) == m.(irqs := [EnqueueTail(irq, c, m.ring.head)])
  {
    hide Pending, Press, QueueIndex, Wrap32, IncrementSaturating;
  }

  lemma LoadTailStep(m: Machine, irq: nat, c: char, head: uint32)
    requires !m.panicked && m.irqs == [EnqueueTail(irq, c, head)]
    ensures Next(KERNEL, m, StepIrq) ==
      m.(irqs := [if Pending(head, m.ring.tail) >= CAPACITY then EnqueueDrop(irq, c) else EnqueueSlot(irq, c, head)])
  {
    hide Pending, Press, QueueIndex, Wrap32, IncrementSaturating;
  }

  /** From the first load of head to the decision. */
  lemma QueueingDecides(m: Machine, irq: nat, c: char)
    requires Inv(m) && m.irqs == [EnqueueHead(irq, c)]
    ensures HandlerSteps(m, 2) ==
      m.(irqs := [if |Waiting(m)| < CAPACITY then EnqueueSlot(irq, c, m.ring.head) else EnqueueDrop(irq, c)])
  {
    hide HandlerSteps, Next, Queued, Holds, Pending, RingInv, IrqLocals, CountInv, KeyInv;
    WaitingIs(m);
    var m1 := m.(irqs := [EnqueueTail(irq, c, m.ring.head)]);
    LoadHeadStep(m, irq, c);
    OneMore(m, m1, 2);
    var m2 := m.(irqs := [if |Waiting(m)| < CAPACITY then EnqueueSlot(irq, c, m.ring.head) else EnqueueDrop(irq, c)]);
    LoadTailStep(m1, irq, c, m.ring.head);
    OneMore(m1, m2, 1);
    NoMore(m2);
  }

  lemma QueueingStores(m: Machine, irq: nat, c: char, head: uint32)
    requires Inv(m) && m.irqs == [EnqueueSlot(irq, c, head)]
    ensures var n := HandlerSteps(m, 2);
      n == m.(irqs := [Acknowledge(irq)], ring := m.ring.(slots := n.ring.slots, head := n.ring.head),
              log := m.log.(kept := m.log.kept + [true], accepted := m.log.accepted + [c]))
  {
    hide HandlerSteps, ForeStep, Press, QueueIndex, Queued, Holds, IncrementSaturating, Pending, Wrap32, RingInv, IrqLocals, CountInv, KeyInv;
    var m1 := m.(irqs := [EnqueueStore(irq, c, head)], ring := m.ring.(slots := m.ring.slots[QueueIndex(head) := c]));
    OneMore(m, m1, 2);
    OneMore(m1, Next(KERNEL, m1, StepIrq), 1);
    NoMore(Next(KERNEL, m1, StepIrq));
  }

  lemma QueueingDrops(m: Machine, irq: nat, c: char)
    requires Inv(m) && m.irqs == [EnqueueDrop(irq, c)]
    ensures HandlerSteps(m, 1) ==
      m.(irqs := [Acknowledge(irq)], ring := m.ring.(dropped := IncrementSaturating(m.ring.dropped)),
         log := m.log.(kept := m.log.kept + [false], lost := m.log.lost + 1))
  {
    hide HandlerSteps, ForeStep, Press, QueueIndex, Queued, Holds, IncrementSaturating, Pending, Wrap32, RingInv, IrqLocals, CountInv, KeyInv;
    OneMore(m, Next(KERNEL, m, StepIrq), 1);
    NoMore(Next(KERNEL, m, StepIrq));
  }

  lemma {:induction false} HandlerStepsJoin(m: Machine, a: nat, b: nat)
    ensures HandlerSteps(m, a + b) == HandlerSteps(HandlerSteps(m, a), b)
    decreases a
  {
    hide Next;
    if a > 0 {
      HandlerStepsJoin(Next(KERNEL, m, StepIrq), a - 1, b);
    }
  }

  lemma {:induction false} HandlerStepsKeepInv(m: Machine, n: nat)
    requires Inv(m)
    ensures Inv(HandlerSteps(m, n))
    decreases n
  {
    hide Next, Inv;
    if n > 0 {
      NextKeepsInv(KERNEL, m, StepIrq);
      HandlerStepsKeepInv(Next(KERNEL, m, StepIrq), n - 1);
    }
  }

  /** What an offered character changes: the queue, the accepted history and the drop counter. */
  ghost predicate OfferMade(m: Machine, n: Machine, typed: Option<char>) {
    && Waiting(n) == Offered(Waiting(m), typed)
    && n.log.accepted == m.log.accepted + Gained(Waiting(m), typed)
    && n.ring.dropped == DroppedAfter(Waiting(m), typed, m.ring.dropped)
    && n.ring.tail == m.ring.tail && n.log.delivered == m.log.delivered
  }

  /**
   * A handler's queueing steps, from first load to last store, do to the queue and the drop
   * counter what one call of input_enqueue_character is specified to do, wherever the
   * foreground was interrupted.
   */
  lemma ProducerMatchesService(m: Machine, irq: nat, c: char)
    requires Inv(m) && m.irqs == [EnqueueHead(irq, c)]
    ensures var n := HandlerSteps(m, if |Waiting(m)| < CAPACITY then 4 else 3);
      && Inv(n) && n == m.(irqs := [Acknowledge(irq)], ring := n.ring, log := n.log)
      && OfferMade(m, n, Some(c)) && n.log.eois == m.log.eois
  {
    hide HandlerSteps, Inv, Next, IncrementSaturating, Queued;
    var count := if |Waiting(m)| < CAPACITY then 4 else 3;
    WaitingIs(m);
    QueueingDecides(m, irq, c);
    HandlerStepsKeepInv(m, 2);
    HandlerStepsKeepInv(m, count);
    HandlerStepsJoin(m, 2, count - 2);
    if |Waiting(m)| < CAPACITY {
      QueueingStores(HandlerSteps(m, 2), irq, c, m.ring.head);
      assert (m.log.accepted + [c])[Taken(m)..] == m.log.accepted[Taken(m)..] + [c];
    } else {
      QueueingDrops(HandlerSteps(m, 2), irq, c);
    }
    WaitingIs(HandlerSteps(m, count));
  }

  /** The registry kernel_main builds: the timer on line 0, the keyboard on line 1. */
  const KERNEL_HANDLERS: seq<Option<Handler>> := [Some(PitHandler), Some(KeyboardHandler)] + seq(14, _ => None)

  lemma KernelDispatch(irq: nat, m: Modifiers, raw: nat)
    requires raw < 256
    ensures TypedBy(irq, KERNEL_HANDLERS, m, raw) == if irq == 1 then Press(m, raw) else (m, None)
  {
    hide Press;
  }

  lemma EnterStep(m: Machine, irq: nat, raw: nat)
    requires !m.panicked && m.irqs == [Enter(irq, raw)] && m.depth == 0
    ensures Next(KERNEL, m, StepIrq) == m.(irqs := [Dispatch(irq, raw)], depth := 1)
  {
    hide Press, QueueIndex, Wrap32, Pending, IncrementSaturating;
  }

  lemma DispatchStep(m: Machine, irq: nat, raw: nat)
    requires !m.panicked && m.irqs == [Dispatch(irq, raw)] && raw < 256
    ensures var n, typed := Next(KERNEL, m, StepIrq), TypedBy(irq, KERNEL_HANDLERS, m.kbd, raw);
      && n == m.(irqs := n.irqs, kbd := typed.0, log := m.log.(scancodes := n.log.scancodes, translated := n.log.translated))
      && n.irqs == [if typed.1.None? then Acknowledge(irq) else EnqueueHead(irq, typed.1.value)]
  {
    hide Press, QueueIndex, Wrap32, Pending, IncrementSaturating, TypedBy;
    KernelDispatch(irq, m.kbd, raw);
  }

  /** Entry and dispatch. */
  lemma HandlerDispatches(m: Machine, irq: nat, raw: nat)
    requires !m.panicked && m.irqs == [Enter(irq, raw)] && m.depth == 0 && raw < 256
    ensures var n, typed := HandlerSteps(m, 2), TypedBy(irq, KERNEL_HANDLERS, m.kbd, raw);
      && n == m.(irqs := n.irqs, depth := 1, kbd := typed.0, log := m.log.(scancodes := n.log.scancodes, translated := n.log.translated))
      && n.irqs == [if typed.1.None? then Acknowledge(irq) else EnqueueHead(irq, typed.1.value)]
  {
    hide HandlerSteps, Next, TypedBy;
    var m1 := m.(irqs := [Dispatch(irq, raw)], depth := 1);
    EnterStep(m, irq, raw);
    OneMore(m, m1, 2);
    DispatchStep(m1, irq, raw);
    OneMore(m1, Next(KERNEL, m1, StepIrq), 1);
    NoMore(Next(KERNEL, m1, StepIrq));
  }

  /** The number of steps of one whole handler run. */
  function HandlerLength(m: Machine, typed: Option<char>): nat {
    if typed.None? then 5 else if |Waiting(m)| < CAPACITY then 9 else 8
  }

  /**
   * A whole handler run, from entry to return, does what one call of irq_handler is specified
   * to do: keyboard state, queue, drop counter, acknowledgement and depth.
   */
  lemma HandlerMatchesService(m: Machine, irq: nat, raw: nat)
    requires Inv(m) && m.irqs == [Enter(irq, raw)] && raw < 256
    ensures var typed := TypedBy(irq, KERNEL_HANDLERS, m.kbd, raw);
      var n := HandlerSteps(m, HandlerLength(m, typed.1));
      && n == m.(irqs := [], cpu := m.cpu.(ifFlag := true), kbd := typed.0, ring := n.ring, log := n.log)
      && OfferMade(m, n, typed.1) && n.log.eois == m.log.eois + [irq]
  {
    hide HandlerSteps, TypedBy, Next, Queued, RingInv, IrqLocals, CountInv, KeyInv, Offered, Gained, DroppedAfter;
    var typed := TypedBy(irq, KERNEL_HANDLERS, m.kbd, raw);
    var total := HandlerLength(m, typed.1);
    HandlerDispatches(m, irq, raw);
    HandlerStepsKeepInv(m, 2);
    var d := HandlerSteps(m, 2);
    HandlerStepsJoin(m, 2, total - 2);
    if typed.1.None? {
      OfferedNothing(Waiting(m), m.ring.dropped);
      HandlerReturns(d, irq);
    } else {
      ProducerMatchesService(d, irq, typed.1.value);
      HandlerStepsJoin(d, total - 5, 3);
      HandlerReturns(HandlerSteps(d, total - 5), irq);
    }
  }

  // ---- The masked consumer ----

  function ForeLabels(labels: seq<Label>): nat
    decreases |labels|
  {
    if labels == [] then 0 else ForeLabels(labels[..|labels| - 1]) + (if labels[|labels| - 1].StepFore? then 1 else 0)
  }

  /** The loads and stores of input_try_read_character: two find the queue empty, four remove a character. */
  function TakeLength(m: Machine): nat {
    if Waiting(m) == [] then 2 else 4
  }

  /** The machine after the first k of them. */
  function Taking(m: Machine, k: nat): Machine
    requires k <= TakeLength(m)
  {
    var n, tail := m.(cpu := m.cpu.(shadow := false)), m.ring.tail;
    if k == 0 then m
    else if k == 1 then n.(fore := LoadHead(tail))
    else if k == 2 && Waiting(m) == [] then n.(fore := StiBeforeHalt)
    else if k == 2 then n.(fore := LoadSlot(tail))
    else if k == 3 then n.(fore := StoreTail(tail, Waiting(m)[0]))
    else n.(fore := Unmask(Waiting(m)[0]), ring := m.ring.(tail := Wrap32(tail + 1)))
  }

  lemma TakingStep(m: Machine, k: nat, query: bool)
    requires Inv(m) && m.fore.LoadTail? && m.irqs == [] && !m.cpu.halted
    ensures k < TakeLength(m) ==> Next(KERNEL, Taking(m, k), StepFore(query)) == Taking(m, k + 1)
  {
    hide Holds, Queued, Wrap32, Pending, IrqLocals, CountInv, KeyInv, IrqStep, QueueIndex;
    WaitingIs(m);
    HoldsBounds(m.ring.slots, m.ring.head, m.ring.tail, m.log.accepted, Taken(m));
    if Waiting(m) != [] {
      TakeAdvances(m.ring.slots, m.ring.head, m.ring.tail, m.log.accepted, Taken(m));
    }
  }

  /** With interrupts masked and no handler running, only the foreground's own steps count. */
  lemma MaskedStutters(m: Machine, l: Label)
    requires m.irqs == [] && !m.cpu.ifFlag && !l.StepFore?
    ensures Next(KERNEL, m, l) == m
  {
    hide IrqStep, ForeStep;
  }

  lemma {:induction false} TakingRun(m: Machine, labels: seq<Label>)
    requires Inv(m) && IdleInv(m) && m.fore.LoadTail? && ForeLabels(labels) <= TakeLength(m)
    ensures Run(KERNEL, m, labels) == Taking(m, ForeLabels(labels))
    decreases |labels|
  {
    hide Inv, Next, Queued, Wrap32;
    if labels != [] {
      var front, last := labels[..|labels| - 1], labels[|labels| - 1];
      TakingRun(m, front);
      if last.StepFore? {
        TakingStep(m, ForeLabels(front), last.query);
      } else {
        MaskedStutters(Taking(m, ForeLabels(front)), last);
      }
    }
  }

  /**
   * The consumer's loads and stores, made with interrupts masked, do what one call of
   * input_try_read_character is specified to do, whatever labels fall between them: an empty
   * queue is left alone on the way to the halt, otherwise exactly the oldest character goes.
   */
  lemma ConsumerMatchesService(m: Machine, labels: seq<Label>)
    requires Inv(m) && IdleInv(m) && m.fore.LoadTail?
    ensures ForeLabels(labels) == TakeLength(m) ==>
      var n := Run(KERNEL, m, labels);
      && n == m.(fore := n.fore, ring := m.ring.(tail := n.ring.tail), cpu := m.cpu.(shadow := false))
      && if Waiting(m) == [] then n.fore == StiBeforeHalt && n.ring == m.ring
         else n.fore == Unmask(Waiting(m)[0]) && Waiting(n) == Waiting(m)[1..]
  {
    hide Run, Queued, Wrap32, RingInv, CountInv, KeyInv, IrqLocals;
    if ForeLabels(labels) == TakeLength(m) {
      TakingRun(m, labels);
      if Waiting(m) != [] {
        TakenOne(m);
      }
    }
  }

  lemma TakenOne(m: Machine)
    requires Inv(m) && m.fore.LoadTail? && Waiting(m) != []
    ensures Waiting(Taking(m, 4)) == Waiting(m)[1..]
  {
    hide Queued, Wrap32, CountInv, KeyInv, IrqLocals, Holds, ContextInv;
    WaitingIs(m);
    HoldsBounds(m.ring.slots, m.ring.head, m.ring.tail, m.log.accepted, Taken(m));
    TakeAdvances(m.ring.slots, m.ring.head, m.ring.tail, m.log.accepted, Taken(m));
    HoldsQueued(m.ring.slots, m.ring.head, Wrap32(m.ring.tail + 1), m.log.accepted, Taken(m) + 1);
  }

  // ---- Where interrupts land ----

  /**
   * With IF set and no STI delay pending, an interrupt on one of the 16 lines is taken before
   * whatever instruction comes next: its handler is entered, IF cleared, a halted CPU woken and
   * nothing else touched. Otherwise it waits and nothing happens.
   */
  lemma ArrivalLaw(cfg: Config, m: Machine, irq: nat, raw: nat)
    ensures var n := Next(cfg, m, Arrive(irq, raw));
      if !m.panicked && irq < 16 && m.cpu.ifFlag && (!m.cpu.shadow || !cfg.delaysSti)
      then n == m.(irqs := m.irqs + [Enter(irq, raw)], cpu := Cpu(false, false, false), log := m.log.(arrivals := m.log.arrivals + [irq]))
      else n == m
  {
    hide IrqStep, ForeStep;
  }

  /** n foreground steps with nothing in between. */
  function ForeSteps(cfg: Config, m: Machine, n: nat): Machine {
    if n == 0 then m else Next(cfg, ForeSteps(cfg, m, n - 1), StepFore(false))
  }

  lemma {:induction false} ForeStepsRun(cfg: Config, start: Machine, labels: seq<Label>, n: nat) returns (longer: seq<Label>)
    ensures Run(cfg, start, longer) == ForeSteps(cfg, Run(cfg, start, labels), n)
    decreases n
  {
    hide Next, Run;
    if n == 0 {
      longer := labels;
    } else {
      var shorter := ForeStepsRun(cfg, start, labels, n - 1);
      RunLast(cfg, start, shorter, StepFore(false));
      longer := shorter + [StepFore(false)];
    }
  }

  /** A call of kernel_work_run_once about to start on a running CPU with interrupts enabled. */
  ghost predicate AtCall(m: Machine) {
    Inv(m) && m.fore.Call? && m.irqs == [] && m.cpu.ifFlag && !m.cpu.halted
  }

  /** The machine k steps into a call that finds a character. */
  function Delivering(cfg: Config, m: Machine, k: nat): Machine
    requires Waiting(m) != []
  {
    var masked := Cpu(m.cpu.ifFlag && !cfg.masksCheck, false, false);
    var checking := m.(cpu := masked);
    var tail, c := m.ring.tail, Waiting(m)[0];
    var taken := checking.(ring := m.ring.(tail := Wrap32(tail + 1)));
    if k == 0 then m
    else if k == 1 then m.(cpu := Cpu(m.cpu.ifFlag, false, false), fore := Mask)
    else if k == 2 then checking.(fore := LoadTail)
    else if k == 3 then checking.(fore := LoadHead(tail))
    else if k == 4 then checking.(fore := LoadSlot(tail))
    else if k == 5 then checking.(fore := StoreTail(tail, c))
    else if k == 6 then taken.(fore := Unmask(c))
    else if k == 7 then taken.(cpu := Cpu(true, !masked.ifFlag, false), fore := Shell(c))
    else if k == 8 then taken.(cpu := Cpu(true, false, false), fore := Command, log := m.log.(delivered := m.log.delivered + [c]))
    else taken.(cpu := Cpu(true, false, false), log := m.log.(delivered := m.log.delivered + [c], calls := m.log.calls + 1))
  }

  lemma DeliveringStep(cfg: Config, m: Machine, k: nat)
    requires AtCall(m) && Waiting(m) != [] && k < 9
    ensures Next(cfg, Delivering(cfg, m, k), StepFore(false)) == Delivering(cfg, m, k + 1)
  {
    hide Holds, Queued, Wrap32, Pending, IrqLocals, CountInv, KeyInv, IrqStep, QueueIndex;
    WaitingIs(m);
    HoldsBounds(m.ring.slots, m.ring.head, m.ring.tail, m.log.accepted, Taken(m));
    TakeAdvances(m.ring.slots, m.ring.head, m.ring.tail, m.log.accepted, Taken(m));
  }

  lemma {:induction false} DeliveringSteps(cfg: Config, m: Machine, k: nat)
    requires AtCall(m) && Waiting(m) != [] && k <= 9
    ensures ForeSteps(cfg, m, k) == Delivering(cfg, m, k)
    decreases k
  {
    hide AtCall, Next, Queued, Wrap32;
    if k > 0 {
      DeliveringSteps(cfg, m, k - 1);
      DeliveringStep(cfg, m, k - 1);
    }
  }

  /** A call that finds a character takes nine steps, delivers exactly the oldest and is ready for the next call. */
  lemma PassDelivers(cfg: Config, m: Machine)
    requires AtCall(m) && Waiting(m) != []
    ensures var n := ForeSteps(cfg, m, 9);
      && n == m.(cpu := Cpu(true, false, false), ring := m.ring.(tail := n.ring.tail),
                 log := m.log.(delivered := m.log.delivered + [Waiting(m)[0]], calls := m.log.calls + 1))
      && Waiting(n) == Waiting(m)[1..]
  {
    hide Inv, Queued, Wrap32, Next, ForeSteps;
    DeliveringSteps(cfg, m, 9);
    TakenByPass(m);
  }

  lemma TakenByPass(m: Machine)
    requires AtCall(m) && Waiting(m) != []
    ensures Queued(m.ring.slots, m.ring.head, Wrap32(m.ring.tail + 1)) == Waiting(m)[1..]
  {
    hide Queued, Wrap32, CountInv, KeyInv, IrqLocals, Holds, ContextInv;
    WaitingIs(m);
    HoldsBounds(m.ring.slots, m.ring.head, m.ring.tail, m.log.accepted, Taken(m));
    TakeAdvances(m.ring.slots, m.ring.head, m.ring.tail, m.log.accepted, Taken(m));
    HoldsQueued(m.ring.slots, m.ring.head, Wrap32(m.ring.tail + 1), m.log.accepted, Taken(m) + 1);
  }

  /** The machine k steps into a call that finds nothing. */
  function Idling(cfg: Config, m: Machine, k: nat): Machine {
    var masked := Cpu(m.cpu.ifFlag && !cfg.masksCheck, false, false);
    var checking := m.(cpu := masked);
    if k == 0 then m
    else if k == 1 then m.(cpu := Cpu(m.cpu.ifFlag, false, false), fore := Mask)
    else if k == 2 then checking.(fore := LoadTail)
    else if k == 3 then checking.(fore := LoadHead(m.ring.tail))
    else if k == 4 then checking.(fore := StiBeforeHalt)
    else if k == 5 then m.(cpu := Cpu(true, !masked.ifFlag, false), fore := Halt)
    else m.(cpu := Cpu(true, false, true), log := m.log.(calls := m.log.calls + 1))
  }

  lemma IdlingStep(cfg: Config, m: Machine, k: nat)
    requires AtCall(m) && Waiting(m) == [] && k < 6
    ensures Next(cfg, Idling(cfg, m, k), StepFore(false)) == Idling(cfg, m, k + 1)
  {
    hide Holds, Queued, Wrap32, Pending, IrqLocals, CountInv, KeyInv, IrqStep, QueueIndex;
    WaitingIs(m);
    HoldsBounds(m.ring.slots, m.ring.head, m.ring.tail, m.log.accepted, Taken(m));
  }

  lemma {:induction false} IdlingSteps(cfg: Config, m: Machine, k: nat)
    requires AtCall(m) && Waiting(m) == [] && k <= 6
    ensures ForeSteps(cfg, m, k) == Idling(cfg, m, k)
    decreases k
  {
    hide AtCall, Next, Queued;
    if k > 0 {
      IdlingSteps(cfg, m, k - 1);
      IdlingStep(cfg, m, k - 1);
    }
  }

  /** A call that finds nothing takes six steps and halts with interrupts enabled, touching nothing. */
  lemma PassIdles(cfg: Config, m: Machine)
    requires AtCall(m) && Waiting(m) == []
    ensures ForeSteps(cfg, m, 6) == m.(cpu := Cpu(true, false, true), log := m.log.(calls := m.log.calls + 1))
  {
    hide AtCall, Next, Queued, ForeSteps;
    IdlingSteps(cfg, m, 6);
  }

  /** The foreground's place in kernel_work_run_once, in program order; the idle path comes last. */
  function StageOf(f: Fore): nat {
    match f
    case Call => 0
    case Mask => 1
    case LoadTail => 2
    case LoadHead(_) => 3
    case LoadSlot(_) => 4
    case StoreTail(_, _) => 5
    case Unmask(_) => 6
    case Shell(_) => 7
    case Command => 8
    case PendingTail(_, _) => 9
    case StiBeforeHalt => 10
    case Halt => 11
  }

  /** Some run has a handler active while the foreground stands at the stage. */
  ghost predicate Interruptible(cfg: Config, slots: Slots, stage: nat) {
    exists labels: seq<Label> :: After(cfg, slots, labels).irqs != [] && StageOf(After(cfg, slots, labels).fore) == stage
  }

  lemma Interrupted(cfg: Config, slots: Slots, labels: seq<Label>)
    requires var m := After(cfg, slots, labels); !m.panicked && AcceptsInterrupt(cfg, m)
    ensures Interruptible(cfg, slots, StageOf(After(cfg, slots, labels).fore))
  {
    hide Run, StageOf, IrqStep, ForeStep;
    var longer := labels + [Arrive(0, 0)];
    RunLast(cfg, Initial(slots), labels, Arrive(0, 0));
    ArrivalLaw(cfg, After(cfg, slots, labels), 0, 0);
    assert After(cfg, slots, longer).irqs != [];
  }

  /** A run that stands at a call with a character waiting. */
  lemma KeyWaits(cfg: Config, slots: Slots) returns (labels: seq<Label>)
    ensures var m := After(cfg, slots, labels); AtCall(m) && m.cpu == Cpu(true, false, false) && Waiting(m) == ['a']
  {
    RunNothing(cfg, Initial(slots));
    hide Run;
    labels := KeyPressRun(cfg, slots, []);
    RunKeepsInv(cfg, slots, labels);
  }

  lemma BusyStages(cfg: Config, slots: Slots, k: nat)
    requires k <= 8 && (cfg.masksCheck ==> k in {0, 1, 8})
    ensures Interruptible(cfg, slots, k)
  {
    hide Run, Inv, Queued, Interruptible, ForeSteps, Wrap32;
    var labels := KeyWaits(cfg, slots);
    var longer := ForeStepsRun(cfg, Initial(slots), labels, k);
    DeliveringSteps(cfg, After(cfg, slots, labels), k);
    RunKeepsInv(cfg, slots, longer);
    NotPanicked(After(cfg, slots, longer));
    Interrupted(cfg, slots, longer);
  }

  lemma NotPanicked(m: Machine)
    requires Inv(m)
    ensures !m.panicked
  {
  }

  lemma PendingStage(cfg: Config, slots: Slots)
    ensures Interruptible(cfg, slots, 9)
  {
    hide Run, Inv, Queued, Interruptible, ForeSteps, Wrap32, Pending;
    var labels := KeyWaits(cfg, slots);
    var command := ForeStepsRun(cfg, Initial(slots), labels, 8);
    DeliveringSteps(cfg, After(cfg, slots, labels), 8);
    RunLast(cfg, Initial(slots), command, StepFore(true));
    var longer := command + [StepFore(true)];
    RunKeepsInv(cfg, slots, longer);
    RunKeepsInv(cfg, slots, command);
    NotPanicked(After(cfg, slots, command));
    NotPanicked(After(cfg, slots, longer));
    Interrupted(cfg, slots, longer);
  }

  lemma IdleStages(cfg: Config, slots: Slots, k: nat)
    requires !cfg.masksCheck && 4 <= k <= 5
    ensures Interruptible(cfg, slots, k + 6)
  {
    RunNothing(cfg, Initial(slots));
    hide Run, Interruptible, ForeSteps;
    RunKeepsInv(cfg, slots, []);
    var longer := ForeStepsRun(cfg, Initial(slots), [], k);
    IdlingSteps(cfg, Initial(slots), k);
    RunKeepsInv(cfg, slots, longer);
    Interrupted(cfg, slots, longer);
  }

  /**
   * In the kernel a handler can run exactly before a call, before it masks, while the shell runs
   * a command and between the two loads of the pending count; without the mask it can run before
   * every single step, each load and store of the consumer included.
   */
  lemma InterruptPoints(cfg: Config, slots: Slots, stage: nat)
    ensures cfg == KERNEL ==> (Interruptible(cfg, slots, stage) <==> stage in {0, 1, 8, 9})
    ensures !cfg.masksCheck && stage <= 11 ==> Interruptible(cfg, slots, stage)
  {
    if cfg == KERNEL {
      if Interruptible(cfg, slots, stage) {
        var labels: seq<Label> :| After(cfg, slots, labels).irqs != [] && StageOf(After(cfg, slots, labels).fore) == stage;
        hide Run;
        RunKeepsInv(cfg, slots, labels);
      }
      if stage in {0, 1, 8} {
        BusyStages(cfg, slots, stage);
      }
      PendingStage(cfg, slots);
    } else if !cfg.masksCheck {
      if stage <= 8 {
        BusyStages(cfg, slots, stage);
      } else if stage == 9 {
        PendingStage(cfg, slots);
      } else if stage <= 11 {
        IdleStages(cfg, slots, stage - 6);
      }
    }
  }

  lemma WaitingIs(m: Machine)
    requires Inv(m)
    ensures Taken(m) <= |m.log.accepted| && Waiting(m) == m.log.accepted[Taken(m)..]
    ensures Pending(m.ring.head, m.ring.tail) == |Waiting(m)|
  {
    HoldsBounds(m.ring.slots, m.ring.head, m.ring.tail, m.log.accepted, Taken(m));
    HoldsQueued(m.ring.slots, m.ring.head, m.ring.tail, m.log.accepted, Taken(m));
  }
}
