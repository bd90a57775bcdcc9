/**
 * The path of a keystroke, one load, store or instruction at a time: interrupt entry,
 * dispatch and acknowledgement (idt.c, interrupts.c), the keyboard handler and the queue's
 * producer (input.c), and the foreground loop that consumes and idles (work.c, shell.c).
 *
 * An interrupt may arrive before any foreground step at which the CPU accepts one. Labels
 * name the step taken; a label whose step is not enabled changes nothing, so a run is any
 * sequence of labels.
 */
module Pipeline {
  import opened Words
  import opened Keyboard
  import opened Input

  // ---- The machine ----

  /** How the idle path is built: is the empty check made with interrupts masked, and does STI
      hold interrupts off for one more instruction? */
  datatype Config = Config(masksCheck: bool, delaysSti: bool)

  const KERNEL: Config := Config(true, true)

  /** The next step of kernel_work_run_once and what it calls. */
  datatype Fore =
    | Call
    | Mask
    | LoadTail
    | LoadHead(tail: uint32)
    | LoadSlot(tail: uint32)
    | StoreTail(tail: uint32, ascii: char)
    | Unmask(ascii: char)
    | Shell(ascii: char)
    | Command
    | PendingTail(head: uint32, exact: nat)
    | StiBeforeHalt
    | Halt

  /** The next step of irq_handler and what it calls. */
  datatype Irq =
    | Enter(irq: nat, raw: nat)
    | Dispatch(irq: nat, raw: nat)
    | EnqueueHead(irq: nat, ascii: char)
    | EnqueueTail(irq: nat, ascii: char, head: uint32)
    | EnqueueSlot(irq: nat, ascii: char, head: uint32)
    | EnqueueStore(irq: nat, ascii: char, head: uint32)
    | EnqueueDrop(irq: nat, ascii: char)
    | Acknowledge(irq: nat)
    | Leave(irq: nat)
    | Return(irq: nat)

  /** A pending count the foreground computed, and the true count when it loaded head. */
  datatype Report = Report(count: nat, exact: nat)

  type Slots = s: seq<char> | |s| == CAPACITY ghost witness seq(CAPACITY, _ => '\0')

  datatype Cpu = Cpu(ifFlag: bool, shadow: bool, halted: bool)

  datatype Ring = Ring(slots: Slots, head: uint32, tail: uint32, dropped: uint32)

  /** What has happened, for stating properties; no step reads it but to extend it. */
  datatype Log = Log(
    scancodes: seq<nat>, translated: seq<char>, kept: seq<bool>, accepted: seq<char>, lost: nat, delivered: seq<char>,
    arrivals: seq<nat>, eois: seq<nat>, reports: seq<Report>, calls: nat)

  datatype Machine = Machine(
    cpu: Cpu, panicked: bool, depth: uint32, kbd: Modifiers, ring: Ring, fore: Fore, irqs: seq<Irq>, log: Log)

  datatype Label = Arrive(irq: nat, raw: nat) | StepIrq | StepFore(query: bool)

  /** Characters stored past tail: those delivered, plus one between its removal and the shell. */
  function Taken(m: Machine): nat {
    |m.log.delivered| + (if m.fore.Unmask? || m.fore.Shell? then 1 else 0)
  }

  function Sti(m: Machine): Machine {
    m.(cpu := m.cpu.(ifFlag := true, shadow := !m.cpu.ifFlag))
  }

  /** One foreground step; query chooses whether the running command reads the pending count. */
  function ForeStep(cfg: Config, m: Machine, query: bool): Machine {
    match m.fore
    case Call => if m.depth != 0 then m.(panicked := true) else m.(fore := Mask)
    case Mask => m.(cpu := m.cpu.(ifFlag := m.cpu.ifFlag && !cfg.masksCheck), fore := LoadTail)
    case LoadTail => m.(fore := LoadHead(m.ring.tail))
    case LoadHead(tail) => if tail == m.ring.head then m.(fore := StiBeforeHalt) else m.(fore := LoadSlot(tail))
    case LoadSlot(tail) => m.(fore := StoreTail(tail, m.ring.slots[QueueIndex(tail)]))
    case StoreTail(tail, ascii) => m.(ring := m.ring.(tail := Wrap32(tail + 1)), fore := Unmask(ascii))
    case Unmask(ascii) => Sti(m).(fore := Shell(ascii))
    case Shell(ascii) => if m.depth != 0 then m.(panicked := true) else m.(log := m.log.(delivered := m.log.delivered + [ascii]), fore := Command)
    case Command =>
      if query then m.(fore := PendingTail(m.ring.head, if Taken(m) <= |m.log.accepted| then |m.log.accepted| - Taken(m) else 0))
      else m.(fore := Call, log := m.log.(calls := m.log.calls + 1))
    case PendingTail(head, exact) => m.(log := m.log.(reports := m.log.reports + [Report(Pending(head, m.ring.tail), exact)]), fore := Command)
    case StiBeforeHalt => Sti(m).(fore := Halt)
    case Halt => m.(cpu := m.cpu.(halted := true), fore := Call, log := m.log.(calls := m.log.calls + 1))
  }

  function Advance(m: Machine, next: Irq): Machine
    requires m.irqs != []
  {
    m.(irqs := m.irqs[..|m.irqs| - 1] + [next])
  }

  /** One step of the innermost interrupt handler. */
  function IrqStep(m: Machine): Machine
    requires m.irqs != []
  {
    match m.irqs[|m.irqs| - 1]
    case Enter(irq, raw) =>
      if m.depth == U32_MAX then m.(panicked := true) else Advance(m, Dispatch(irq, raw)).(depth := m.depth + 1)
    case Dispatch(irq, raw) =>
      if irq != 1 then Advance(m, Acknowledge(irq))
      else
        var (kbd, typed) := Press(m.kbd, raw % 256);
        var scancodes := m.log.scancodes + [raw % 256];
        if typed.None? then Advance(m, Acknowledge(irq)).(kbd := kbd, log := m.log.(scancodes := scancodes))
        else Advance(m, EnqueueHead(irq, typed.value)).(kbd := kbd, log := m.log.(scancodes := scancodes, translated := m.log.translated + [typed.value]))
    case EnqueueHead(irq, ascii) => Advance(m, EnqueueTail(irq, ascii, m.ring.head))
    case EnqueueTail(irq, ascii, head) =>
      Advance(m, if Pending(head, m.ring.tail) >= CAPACITY then EnqueueDrop(irq, ascii) else EnqueueSlot(irq, ascii, head))
    case EnqueueSlot(irq, ascii, head) => Advance(m, EnqueueStore(irq, ascii, head)).(ring := m.ring.(slots := m.ring.slots[QueueIndex(head) := ascii]))
    case EnqueueStore(irq, ascii, head) => Advance(m, Acknowledge(irq)).(ring := m.ring.(head := Wrap32(head + 1)), log := m.log.(kept := m.log.kept + [true], accepted := m.log.accepted + [ascii]))
    case EnqueueDrop(irq, ascii) => Advance(m, Acknowledge(irq)).(ring := m.ring.(dropped := IncrementSaturating(m.ring.dropped)), log := m.log.(kept := m.log.kept + [false], lost := m.log.lost + 1))
    case Acknowledge(irq) => Advance(m, Leave(irq)).(log := m.log.(eois := m.log.eois + [irq]))
    case Leave(irq) => if m.depth == 0 then m.(panicked := true) else Advance(m, Return(irq)).(depth := m.depth - 1)
    case Return(irq) => m.(irqs := m.irqs[..|m.irqs| - 1], cpu := m.cpu.(ifFlag := true))
  }

  predicate AcceptsInterrupt(cfg: Config, m: Machine) {
    m.cpu.ifFlag && !(cfg.delaysSti && m.cpu.shadow)
  }

  function Next(cfg: Config, m: Machine, l: Label): Machine {
    if m.panicked then m
    else
      match l
      case Arrive(irq, raw) =>
        if irq >= 16 || !AcceptsInterrupt(cfg, m) then m
        else m.(cpu := m.cpu.(ifFlag := false, shadow := false, halted := false), irqs := m.irqs + [Enter(irq, raw)], log := m.log.(arrivals := m.log.arrivals + [irq]))
      case StepIrq => if m.irqs == [] then m else IrqStep(m)
      case StepFore(query) => if m.irqs != [] || m.cpu.halted then m else ForeStep(cfg, m.(cpu := m.cpu.(shadow := false)), query)
  }

  function Run(cfg: Config, m: Machine, labels: seq<Label>): Machine
    decreases |labels|
  {
    if labels == [] then m else Next(cfg, Run(cfg, m, labels[..|labels| - 1]), labels[|labels| - 1])
  }

  /** The state in which kernel_main enters its loop; the slots hold anything. */
  function Initial(slots: Slots): Machine {
    Machine(Cpu(true, false, false), false, 0, Modifiers(false, false), Ring(slots, 0, 0, 0), Call, [],
            Log([], [], [], [], 0, [], [], [], [], 0))
  }

  // ---- The invariant ----

  ghost predicate ForeLocals(m: Machine) {
    match m.fore
    case LoadHead(tail) => tail == m.ring.tail
    case LoadSlot(tail) => tail == m.ring.tail && Taken(m) < |m.log.accepted|
    case StoreTail(tail, ascii) => tail == m.ring.tail && Taken(m) < |m.log.accepted| && ascii == m.log.accepted[Taken(m)]
    case Unmask(ascii) => Taken(m) <= |m.log.accepted| && ascii == m.log.accepted[|m.log.delivered|]
    case Shell(ascii) => Taken(m) <= |m.log.accepted| && ascii == m.log.accepted[|m.log.delivered|]
    case PendingTail(head, exact) => Pending(head, m.ring.tail) == exact <= CAPACITY
    case _ => true
  }

  ghost predicate RingInv(m: Machine) {
    && Holds(m.ring.slots, m.ring.head, m.ring.tail, m.log.accepted, Taken(m))
    && m.log.delivered == m.log.accepted[..|m.log.delivered|]
    && ForeLocals(m)
    && (forall i | 0 <= i < |m.log.reports| :: m.log.reports[i].count == m.log.reports[i].exact <= CAPACITY)
  }

  predicate Queueing(i: Irq) {
    i.EnqueueHead? || i.EnqueueTail? || i.EnqueueSlot? || i.EnqueueStore? || i.EnqueueDrop?
  }

  ghost predicate IrqLocals(m: Machine) {
    m.irqs != [] ==>
      match m.irqs[0]
      case EnqueueTail(irq, ascii, head) => head == m.ring.head
      case EnqueueSlot(irq, ascii, head) => head == m.ring.head && |m.log.accepted| - Taken(m) < CAPACITY
      case EnqueueStore(irq, ascii, head) => Holds(m.ring.slots, Wrap32(head + 1), m.ring.tail, m.log.accepted + [ascii], Taken(m))
      case _ => true
  }

  /** The characters flagged true, in order. */
  function Keep(chars: seq<char>, kept: seq<bool>): seq<char>
    requires |kept| <= |chars|
    decreases |kept|
  {
    if kept == [] then []
    else Keep(chars, kept[..|kept| - 1]) + (if kept[|kept| - 1] then [chars[|kept| - 1]] else [])
  }

  function Rejected(kept: seq<bool>): nat
    decreases |kept|
  {
    if kept == [] then 0 else Rejected(kept[..|kept| - 1]) + (if kept[|kept| - 1] then 0 else 1)
  }

  lemma {:induction false} KeepOfLonger(chars: seq<char>, more: seq<char>, kept: seq<bool>)
    requires |kept| <= |chars|
    ensures Keep(chars + more, kept) == Keep(chars, kept)
    decreases |kept|
  {
    if kept != [] {
      KeepOfLonger(chars, more, kept[..|kept| - 1]);
    }
  }

  lemma KeepOneMore(chars: seq<char>, kept: seq<bool>, flag: bool)
    requires |kept| < |chars|
    ensures Keep(chars, kept + [flag]) == Keep(chars, kept) + (if flag then [chars[|kept|]] else [])
    ensures Rejected(kept + [flag]) == Rejected(kept) + (if flag then 0 else 1)
  {
    assert (kept + [flag])[..|kept|] == kept;
  }

  /** The keyboard produced the translated characters from the scancodes read; each was accepted
      in order or counted as lost, except the one a handler is queueing. */
  ghost predicate CountInv(m: Machine) {
    && |m.log.translated| == |m.log.kept| + (if m.irqs != [] && Queueing(m.irqs[0]) then 1 else 0)
    && (m.irqs != [] && Queueing(m.irqs[0]) ==> m.irqs[0].ascii == m.log.translated[|m.log.kept|])
    && m.log.accepted == Keep(m.log.translated, m.log.kept)
    && m.log.lost == Rejected(m.log.kept)
    && m.ring.dropped == Min(m.log.lost, U32_MAX)
  }

  ghost predicate KeyInv(m: Machine) {
    && ValidScancodes(m.log.scancodes)
    && m.kbd == PressAll(RELEASED_MODIFIERS, m.log.scancodes)
    && m.log.translated == TypedAll(RELEASED_MODIFIERS, m.log.scancodes)
  }

  /** Interrupt handlers never nest, foreground code never runs inside one, and each arrival is
      acknowledged exactly once. */
  ghost predicate ContextInv(m: Machine) {
    && !m.panicked
    && |m.irqs| <= 1
    && (m.irqs == [] ==> m.depth == 0 && m.log.eois == m.log.arrivals)
    && (m.irqs != [] ==>
          && !m.cpu.ifFlag && !m.cpu.halted && !m.cpu.shadow
          && m.depth == (if m.irqs[0].Enter? || m.irqs[0].Return? then 0 else 1)
          && m.log.arrivals == (if m.irqs[0].Leave? || m.irqs[0].Return? then m.log.eois else m.log.eois + [m.irqs[0].irq]))
  }

  ghost predicate Inv(m: Machine) {
    RingInv(m) && IrqLocals(m) && CountInv(m) && KeyInv(m) && ContextInv(m)
  }

  predicate Masked(f: Fore) {
    f.LoadTail? || f.LoadHead? || f.LoadSlot? || f.StoreTail? || f.Unmask? || f.StiBeforeHalt?
  }

  /** What the masked check and the STI delay buy: from the check to the halt nothing arrives. */
  ghost predicate IdleInv(m: Machine) {
    && (Masked(m.fore) ==> m.irqs == [] && !m.cpu.ifFlag)
    && (m.fore.Halt? || m.fore.Shell? ==> m.irqs == [] && m.cpu.shadow)
    && (m.fore.StiBeforeHalt? || m.fore.Halt? || m.cpu.halted ==> Taken(m) == |m.log.accepted|)
    && (m.cpu.halted ==> m.irqs == [] && m.fore.Call?)
  }

  // ---- Every step keeps it ----

  lemma InitialInv(slots: Slots)
    ensures Inv(Initial(slots)) && IdleInv(Initial(slots))
  {
  }

  lemma ArriveKeepsInv(cfg: Config, m: Machine, irq: nat, raw: nat)
    requires Inv(m)
    ensures Inv(Next(cfg, m, Arrive(irq, raw)))
  {
    hide Holds, Press, QueueIndex, Wrap32, Pending, Keep, Rejected, PressAll, TypedAll, ValidScancodes;
  }

  lemma IrqKeepsRing(m: Machine)
    requires Inv(m) && m.irqs != []
    ensures RingInv(IrqStep(m))
  {
    hide Holds, Press, QueueIndex, Wrap32, CountInv, KeyInv, Pending, IrqStep;
    HoldsBounds(m.ring.slots, m.ring.head, m.ring.tail, m.log.accepted, Taken(m));
    if m.irqs[0].EnqueueSlot? {
      StoreAppends(m.ring.slots, m.ring.head, m.ring.tail, m.log.accepted, Taken(m), m.irqs[0].ascii);
      SlotStep(m);
    } else if m.irqs[0].EnqueueStore? {
      HeadStep(m);
    } else {
      OtherStep(m);
    }
  }

  /** The store into the slot at head. */
  lemma SlotStep(m: Machine)
    requires |m.irqs| == 1 && m.irqs[0].EnqueueSlot?
    ensures IrqStep(m) == m.(irqs := IrqStep(m).irqs, ring := m.ring.(slots := m.ring.slots[QueueIndex(m.irqs[0].head) := m.irqs[0].ascii]))
  {
    hide Press, QueueIndex, Wrap32, Pending, IncrementSaturating;
  }

  /** The store that advances head. */
  lemma HeadStep(m: Machine)
    requires |m.irqs| == 1 && m.irqs[0].EnqueueStore?
    ensures var n := IrqStep(m);
      n == m.(irqs := n.irqs, ring := m.ring.(head := Wrap32(m.irqs[0].head + 1)), log := m.log.(kept := n.log.kept, accepted := m.log.accepted + [m.irqs[0].ascii]))
  {
    hide Press, QueueIndex, Pending, IncrementSaturating;
  }

  /** No other handler step touches what the queue holds. */
  lemma OtherStep(m: Machine)
    requires |m.irqs| == 1 && !m.irqs[0].EnqueueSlot? && !m.irqs[0].EnqueueStore?
    ensures var n := IrqStep(m);
      && n.ring == m.ring.(dropped := n.ring.dropped) && n.fore == m.fore
      && n.log.accepted == m.log.accepted && n.log.delivered == m.log.delivered && n.log.reports == m.log.reports
  {
    hide Press, QueueIndex, Wrap32, Pending, IncrementSaturating;
  }

  lemma IrqKeepsLocals(m: Machine)
    requires Inv(m) && m.irqs != []
    ensures IrqLocals(IrqStep(m))
  {
    hide Holds, Press, QueueIndex, Wrap32, CountInv, KeyInv, Pending, ForeLocals;
    HoldsBounds(m.ring.slots, m.ring.head, m.ring.tail, m.log.accepted, Taken(m));
    if m.irqs[0].EnqueueSlot? {
      StoreAppends(m.ring.slots, m.ring.head, m.ring.tail, m.log.accepted, Taken(m), m.irqs[0].ascii);
    }
  }

  lemma IrqKeepsCounts(m: Machine)
    requires Inv(m) && m.irqs != []
    ensures CountInv(IrqStep(m))
  {
    hide Holds, Press, QueueIndex, Pending, Wrap32, IncrementSaturating, RingInv, IrqLocals, KeyInv, Keep, Rejected;
    Saturates(m.log.lost);
    match m.irqs[0]
    case Dispatch(irq, raw) =>
      if irq == 1 && Press(m.kbd, raw % 256).1.Some? {
        KeepOfLonger(m.log.translated, [Press(m.kbd, raw % 256).1.value], m.log.kept);
      }
    case EnqueueStore(irq, ascii, head) => KeepOneMore(m.log.translated, m.log.kept, true);
    case EnqueueDrop(irq, ascii) => KeepOneMore(m.log.translated, m.log.kept, false);
    case _ =>
  }

  lemma IrqKeepsKeys(m: Machine)
    requires Inv(m) && m.irqs != []
    ensures KeyInv(IrqStep(m))
  {
    hide Holds, Press, QueueIndex, Wrap32, Pending, RingInv, IrqLocals, CountInv, TypedAll, PressAll, ValidScancodes;
    if m.irqs[0].Dispatch? && m.irqs[0].irq == 1 {
      TypedOneMore(RELEASED_MODIFIERS, m.log.scancodes, m.irqs[0].raw % 256);
    }
  }

  lemma IrqKeepsContext(m: Machine)
    requires Inv(m) && m.irqs != []
    ensures ContextInv(IrqStep(m))
  {
    hide Holds, Press, QueueIndex, Wrap32, Pending, RingInv, IrqLocals, CountInv, KeyInv;
  }

  lemma ForeKeepsRing(cfg: Config, m: Machine, query: bool)
    requires Inv(m) && m.irqs == []
    ensures RingInv(ForeStep(cfg, m, query))
  {
    hide Holds, QueueIndex, Wrap32, CountInv, KeyInv, ContextInv, IrqLocals, Pending;
    HoldsBounds(m.ring.slots, m.ring.head, m.ring.tail, m.log.accepted, Taken(m));
    if m.fore.LoadSlot? || m.fore.StoreTail? {
      TakeAdvances(m.ring.slots, m.ring.head, m.ring.tail, m.log.accepted, Taken(m));
    }
    ForeKeepsLocals(cfg, m, query);
    ForeKeepsHistory(cfg, m, query);
  }

  lemma ForeKeepsLocals(cfg: Config, m: Machine, query: bool)
    requires Inv(m) && m.irqs == []
    ensures ForeLocals(ForeStep(cfg, m, query))
  {
    hide Holds, QueueIndex, Wrap32, CountInv, KeyInv, ContextInv, IrqLocals, Pending;
    HoldsBounds(m.ring.slots, m.ring.head, m.ring.tail, m.log.accepted, Taken(m));
    if m.fore.LoadSlot? || m.fore.StoreTail? {
      TakeAdvances(m.ring.slots, m.ring.head, m.ring.tail, m.log.accepted, Taken(m));
    }
  }

  /** What a foreground step leaves alone. */
  lemma ForeStepFrame(cfg: Config, m: Machine, query: bool)
    ensures var n := ForeStep(cfg, m, query);
      && n.kbd == m.kbd && n.irqs == m.irqs && n.ring == m.ring.(tail := n.ring.tail)
      && n.log == m.log.(delivered := n.log.delivered, reports := n.log.reports, calls := n.log.calls)
  {
    hide QueueIndex, Wrap32, Pending;
  }

  /** What it adds to the history. */
  lemma ForeStepHistory(cfg: Config, m: Machine, query: bool)
    ensures var n := ForeStep(cfg, m, query);
      && n.log.delivered == m.log.delivered + (if m.fore.Shell? && m.depth == 0 then [m.fore.ascii] else [])
      && n.log.reports == m.log.reports + (if m.fore.PendingTail? then [Report(Pending(m.fore.head, m.ring.tail), m.fore.exact)] else [])
  {
    hide QueueIndex, Wrap32, Pending;
  }

  lemma ForeKeepsHistory(cfg: Config, m: Machine, query: bool)
    requires Inv(m) && m.irqs == []
    ensures var n := ForeStep(cfg, m, query);
      && |n.log.delivered| <= |n.log.accepted| && n.log.delivered == n.log.accepted[..|n.log.delivered|]
      && forall i | 0 <= i < |n.log.reports| :: n.log.reports[i].count == n.log.reports[i].exact <= CAPACITY
  {
    hide Holds, CountInv, KeyInv, ContextInv, IrqLocals, Pending, ForeStep;
    HoldsBounds(m.ring.slots, m.ring.head, m.ring.tail, m.log.accepted, Taken(m));
    ForeStepFrame(cfg, m, query);
    ForeStepHistory(cfg, m, query);
  }

  lemma ForeKeepsCounts(cfg: Config, m: Machine, query: bool)
    requires Inv(m) && m.irqs == []
    ensures CountInv(ForeStep(cfg, m, query)) && IrqLocals(ForeStep(cfg, m, query)) && KeyInv(ForeStep(cfg, m, query))
  {
    hide Holds, RingInv, Pending, Queueing, ContextInv, Keep, Rejected, PressAll, TypedAll, ForeStep;
    ForeStepFrame(cfg, m, query);
  }

  lemma ForeKeepsContext(cfg: Config, m: Machine, query: bool)
    requires Inv(m) && m.irqs == []
    ensures ContextInv(ForeStep(cfg, m, query))
  {
    hide Holds, QueueIndex, Wrap32, RingInv, Pending, CountInv, KeyInv, IrqLocals;
  }

  lemma UnshadowedInv(m: Machine)
    requires Inv(m) && m.irqs == []
    ensures Inv(m.(cpu := m.cpu.(shadow := false)))
  {
    hide Holds, Wrap32, Pending, Keep, Rejected, PressAll, TypedAll, ValidScancodes;
  }

  lemma NextKeepsInv(cfg: Config, m: Machine, l: Label)
    requires Inv(m)
    ensures Inv(Next(cfg, m, l))
  {
    hide RingInv, IrqLocals, CountInv, KeyInv, ContextInv, ForeStep, IrqStep;
    match l
    case Arrive(irq, raw) => ArriveKeepsInv(cfg, m, irq, raw);
    case StepIrq =>
      if m.irqs != [] {
        IrqKeepsRing(m);
        IrqKeepsLocals(m);
        IrqKeepsCounts(m);
        IrqKeepsKeys(m);
        IrqKeepsContext(m);
      }
    case StepFore(query) =>
      if m.irqs == [] {
        UnshadowedInv(m);
        ForeKeepsRing(cfg, m.(cpu := m.cpu.(shadow := false)), query);
        ForeKeepsCounts(cfg, m.(cpu := m.cpu.(shadow := false)), query);
        ForeKeepsContext(cfg, m.(cpu := m.cpu.(shadow := false)), query);
      }
  }

  lemma NextKeepsIdle(m: Machine, l: Label)
    requires Inv(m) && IdleInv(m)
    ensures IdleInv(Next(KERNEL, m, l))
  {
    hide Holds, Press, QueueIndex, Wrap32, CountInv, KeyInv, IrqLocals, Pending;
    HoldsBounds(m.ring.slots, m.ring.head, m.ring.tail, m.log.accepted, Taken(m));
  }

  lemma {:induction false} RunKeepsInv(cfg: Config, slots: Slots, labels: seq<Label>)
    ensures Inv(Run(cfg, Initial(slots), labels))
    ensures cfg == KERNEL ==> IdleInv(Run(cfg, Initial(slots), labels))
    decreases |labels|
  {
    if labels == [] {
      InitialInv(slots);
    } else {
      var front, last := labels[..|labels| - 1], labels[|labels| - 1];
      RunKeepsInv(cfg, slots, front);
      NextKeepsInv(cfg, Run(cfg, Initial(slots), front), last);
      if cfg == KERNEL {
        NextKeepsIdle(Run(cfg, Initial(slots), front), last);
      }
    }
  }
}
