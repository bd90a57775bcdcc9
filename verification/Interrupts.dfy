/**
 * The IRQ registry, context tracking and diagnostics of interrupts.c, and irq_handler of idt.c
 * with the keyboard interrupt it dispatches to (input.c).
 */
module Interrupts {
  import opened Words
  import opened Keyboard
  import opened Input

  const IRQ_COUNT: nat := 16

  /** The functions kernel_main registers. */
  datatype Handler = PitHandler | KeyboardHandler

  datatype Port = SlaveCommand | MasterCommand

  datatype Outcome = Returned | MissingFrame | InvalidVector | DepthOverflow | DepthUnderflow

  /** The end-of-interrupt writes one IRQ line needs: the slave's first for its lines, then the master's. */
  function EoiWrites(irq: nat): seq<Port> {
    if irq > 15 then [] else if irq >= 8 then [SlaveCommand, MasterCommand] else [MasterCommand]
  }

  /** Each of the 16 lines is acknowledged once at the master, and lines 8-15 once at the slave before that. */
  lemma EoiLaw(irq: nat)
    ensures irq < 16 ==> multiset(EoiWrites(irq))[MasterCommand] == 1 && EoiWrites(irq)[|EoiWrites(irq)| - 1] == MasterCommand
    ensures multiset(EoiWrites(irq))[SlaveCommand] == if 8 <= irq < 16 then 1 else 0
    ensures irq >= 16 ==> EoiWrites(irq) == []
  {
  }

  class InterruptController {
    const input: InputQueue
    const keyboard: Keyboard
    const handlers: array<Option<Handler>>
    const dispatchCounts: array<uint32>
    var unhandledCount: uint32
    var invalidCount: uint32
    var contextDepth: uint32
    var pitTicks: uint32
    var eoiLog: seq<Port>
    ghost var dispatches: seq<nat>
    ghost var unhandled: nat
    ghost var invalid: nat

    constructor (input: InputQueue, keyboard: Keyboard)
      requires input.Valid()
      ensures this.input == input && this.keyboard == keyboard && fresh(handlers) && fresh(dispatchCounts)
      ensures Valid() && contextDepth == 0 && handlers.Length == 16
    {
      this.input, this.keyboard := input, keyboard;
      handlers := new Option<Handler>[IRQ_COUNT](_ => None);
      dispatchCounts := new uint32[IRQ_COUNT](_ => 0);
      unhandledCount, invalidCount, contextDepth, pitTicks := 0, 0, 0, 0;
      eoiLog := [];
      dispatches := seq(IRQ_COUNT, _ => 0);
      unhandled, invalid := 0, 0;
    }

    /** Every diagnostic counter is the true count, held at the 32-bit maximum. */
    ghost predicate Valid()
      reads this, handlers, dispatchCounts, input, input.queue
    {
      && handlers.Length == IRQ_COUNT && dispatchCounts.Length == IRQ_COUNT && |dispatches| == IRQ_COUNT
      && (forall i | 0 <= i < IRQ_COUNT :: dispatchCounts[i] == Min(dispatches[i], U32_MAX))
      && unhandledCount == Min(unhandled, U32_MAX)
      && invalidCount == Min(invalid, U32_MAX)
      && input.Valid()
    }

    /** interrupts_initialize */
    method Initialize()
      requires Valid()
      modifies this, handlers, dispatchCounts
      ensures Valid() && contextDepth == 0 && unhandled == 0 && invalid == 0
      ensures pitTicks == old(pitTicks) && eoiLog == old(eoiLog)
      ensures forall i | 0 <= i < IRQ_COUNT :: handlers[i] == None && dispatches[i] == 0
    {
      for irq := 0 to IRQ_COUNT
        modifies handlers, dispatchCounts
        invariant forall i | 0 <= i < irq :: handlers[i] == None && dispatchCounts[i] == 0
      {
        handlers[irq] := None;
        dispatchCounts[irq] := 0;
      }
      unhandledCount, invalidCount, contextDepth := 0, 0, 0;
      dispatches := seq(IRQ_COUNT, _ => 0);
      unhandled, invalid := 0, 0;
    }

    /** interrupts_register_irq: a line is registered once, and only with a handler. */
    method RegisterIrq(irq: nat, handler: Option<Handler>) returns (ok: bool)
      requires Valid()
      modifies handlers
      ensures Valid()
      ensures ok <==> irq < 16 && handler.Some? && old(handlers[irq]) == None
      ensures handlers[..] == if ok then old(handlers[..])[irq := handler] else old(handlers[..])
    {
      if irq >= IRQ_COUNT || handler == None {
        return false;
      }
      if handlers[irq] != None {
        return false;
      }
      handlers[irq] := handler;
      return true;
    }

    /** interrupts_context_enter */
    method ContextEnter() returns (ok: bool)
      modifies `contextDepth
      ensures ok <==> old(contextDepth) < U32_MAX
      ensures contextDepth as int == old(contextDepth) + (if ok then 1 else 0)
    {
      if contextDepth == U32_MAX {
        return false;
      }
      contextDepth := Wrap32(contextDepth + 1);
      return true;
    }

    /** interrupts_context_exit */
    method ContextExit() returns (ok: bool)
      modifies `contextDepth
      ensures ok <==> old(contextDepth) > 0
      ensures contextDepth as int == old(contextDepth) - (if ok then 1 else 0)
    {
      if contextDepth == 0 {
        return false;
      }
      contextDepth := contextDepth - 1;
      return true;
    }

    /** input_handle_keyboard_interrupt, given the scancode waiting at the data port. */
    method HandleKeyboardInterrupt(raw: nat)
      requires Valid() && raw < 256
      modifies input`head, input`dropped, input`accepted, input`lost, input.queue, keyboard
      ensures Valid()
      ensures keyboard.View() == Press(old(keyboard.View()), raw).0
      ensures input.Contents() == Offered(old(input.Contents()), Press(old(keyboard.View()), raw).1)
      ensures input.accepted == old(input.accepted) + Gained(old(input.Contents()), Press(old(keyboard.View()), raw).1)
      ensures |input.accepted| + input.lost == |old(input.accepted)| + old(input.lost) + (if Press(old(keyboard.View()), raw).1.Some? then 1 else 0)
      ensures input.dropped == DroppedAfter(old(input.Contents()), Press(old(keyboard.View()), raw).1, old(input.dropped))
    {
      var produced, ascii := keyboard.HandleInterrupt(raw);
      if produced {
        var ok := input.EnqueueCharacter(ascii);
      }
    }

    /** interrupts_increment_saturating on one line's dispatch counter. */
    method CountDispatch(irq: nat)
      requires Valid() && irq < IRQ_COUNT
      modifies `dispatches, dispatchCounts
      ensures Valid() && dispatches == old(dispatches)[irq := old(dispatches)[irq] + 1]
    {
      hide IncrementSaturating, Min, Holds;
      Saturates(dispatches[irq]);
      dispatchCounts[irq] := IncrementSaturating(dispatchCounts[irq]);
      dispatches := dispatches[irq := dispatches[irq] + 1];
    }

    /** The handler call at the end of interrupts_dispatch_irq. */
    method CallHandler(handler: Option<Handler>, raw: nat)
      requires Valid() && raw < 256
      modifies `unhandledCount, `pitTicks, `unhandled
      modifies input`head, input`dropped, input`accepted, input`lost, input.queue, keyboard
      ensures Valid()
      ensures unhandled == old(unhandled) + (if handler == None then 1 else 0)
      ensures pitTicks == if handler == Some(PitHandler) then Wrap32(old(pitTicks) + 1) else old(pitTicks)
      ensures var typed := if handler == Some(KeyboardHandler) then Press(old(keyboard.View()), raw) else (old(keyboard.View()), None);
        && keyboard.View() == typed.0
        && input.Contents() == Offered(old(input.Contents()), typed.1)
        && input.accepted == old(input.accepted) + Gained(old(input.Contents()), typed.1)
        && input.dropped == DroppedAfter(old(input.Contents()), typed.1, old(input.dropped))
    {
      hide Press, Offered, Gained, DroppedAfter, IncrementSaturating, Min;
      OfferedNothing(input.Contents(), input.dropped);
      match handler
      case None =>
        Saturates(unhandled);
        unhandledCount := IncrementSaturating(unhandledCount);
        unhandled := unhandled + 1;
      case Some(PitHandler) =>
        pitTicks := Wrap32(pitTicks + 1);
      case Some(KeyboardHandler) =>
        HandleKeyboardInterrupt(raw);
    }

    /** interrupts_dispatch_irq */
    method DispatchIrq(irq: nat, raw: nat)
      requires Valid() && raw < 256
      modifies `unhandledCount, `invalidCount, `pitTicks, `dispatches, `unhandled, `invalid, dispatchCounts
      modifies input`head, input`dropped, input`accepted, input`lost, input.queue, keyboard
      ensures Valid()
      ensures dispatches == if irq < IRQ_COUNT then old(dispatches)[irq := old(dispatches)[irq] + 1] else old(dispatches)
      ensures invalid == old(invalid) + (if irq < IRQ_COUNT then 0 else 1)
      ensures unhandled == old(unhandled) + (if irq < IRQ_COUNT && old(handlers[irq]) == None then 1 else 0)
      ensures pitTicks == if irq < IRQ_COUNT && old(handlers[irq]) == Some(PitHandler) then Wrap32(old(pitTicks) + 1) else old(pitTicks)
      ensures var typed := TypedBy(irq, old(handlers[..]), old(keyboard.View()), raw);
        && keyboard.View() == typed.0
        && input.Contents() == Offered(old(input.Contents()), typed.1)
        && input.accepted == old(input.accepted) + Gained(old(input.Contents()), typed.1)
        && input.dropped == DroppedAfter(old(input.Contents()), typed.1, old(input.dropped))
    {
      hide Press, Offered, Gained, DroppedAfter, IncrementSaturating, Min;
      OfferedNothing(input.Contents(), input.dropped);
      if irq >= IRQ_COUNT {
        Saturates(invalid);
        invalidCount := IncrementSaturating(invalidCount);
        invalid := invalid + 1;
        return;
      }
      CountDispatch(irq);
      CallHandler(handlers[irq], raw);
    }

    /** pic_send_eoi */
    method SendEoi(irq: nat)
      modifies `eoiLog
      ensures eoiLog == old(eoiLog) + EoiWrites(irq)
    {
      if irq > 15 {
        return;
      }
      if irq >= 8 {
        eoiLog := eoiLog + [SlaveCommand];
      }
      eoiLog := eoiLog + [MasterCommand];
    }

    /**
     * irq_handler, given the saved frame's vector. A missing frame, a vector outside 32-47 or a
     * full depth counter panics before anything is dispatched; otherwise the line is dispatched
     * and acknowledged exactly once, the depth is what it was, and the underflow panic is
     * unreachable.
     */
    method IrqHandler(frame: Option<nat>, raw: nat) returns (outcome: Outcome)
      requires Valid() && raw < 256
      modifies this, dispatchCounts, input`head, input`dropped, input`accepted, input`lost, input.queue, keyboard
      ensures Valid() && contextDepth == old(contextDepth)
      ensures outcome == Entry(frame, old(contextDepth))
      ensures outcome == Returned ==>
        && eoiLog == old(eoiLog) + EoiWrites(frame.value - 32)
        && dispatches == old(dispatches)[frame.value - 32 := old(dispatches)[frame.value - 32] + 1]
      ensures outcome != Returned ==> eoiLog == old(eoiLog) && dispatches == old(dispatches)
      ensures invalid == old(invalid)
      ensures unhandled == old(unhandled) + (if outcome == Returned && old(handlers[..])[frame.value - 32] == None then 1 else 0)
      ensures pitTicks == if outcome == Returned && old(handlers[..])[frame.value - 32] == Some(PitHandler) then Wrap32(old(pitTicks) + 1) else old(pitTicks)
      ensures var typed := if outcome == Returned then TypedBy(frame.value - 32, old(handlers[..]), old(keyboard.View()), raw) else (old(keyboard.View()), None);
        && keyboard.View() == typed.0
        && input.Contents() == Offered(old(input.Contents()), typed.1)
        && input.accepted == old(input.accepted) + Gained(old(input.Contents()), typed.1)
        && input.dropped == DroppedAfter(old(input.Contents()), typed.1, old(input.dropped))
    {
      hide Press, Offered, Gained, DroppedAfter;
      OfferedNothing(input.Contents(), input.dropped);
      if frame == None {
        return MissingFrame;
      }
      if frame.value < 32 || frame.value > 47 {
        return InvalidVector;
      }
      var irq := frame.value - 32;
      var entered := ContextEnter();
      if !entered {
        return DepthOverflow;
      }
      DispatchIrq(irq, raw);
      SendEoi(irq);
      var exited := ContextExit();
      outcome := if exited then Returned else DepthUnderflow;
    }
  }

  /** Which panic, if any, meets an interrupt at a given depth. */
  function Entry(frame: Option<nat>, depth: nat): (outcome: Outcome)
    ensures outcome == Returned <==> frame.Some? && 32 <= frame.value <= 47 && depth != U32_MAX
  {
    if frame == None then MissingFrame
    else if frame.value < 32 || frame.value > 47 then InvalidVector
    else if depth == U32_MAX then DepthOverflow
    else Returned
  }

  /** The character a queue gains when an optional character is offered to it. */
  function Gained(contents: seq<char>, typed: Option<char>): seq<char> {
    if typed.None? || |contents| >= CAPACITY then [] else [typed.value]
  }

  /** What a queue holds after an optional character is offered to it. */
  function Offered(contents: seq<char>, typed: Option<char>): seq<char> {
    contents + Gained(contents, typed)
  }

  /** The drop counter after the offer. */
  function DroppedAfter(contents: seq<char>, typed: Option<char>, dropped: uint32): uint32 {
    if typed.Some? && |contents| >= CAPACITY then IncrementSaturating(dropped) else dropped
  }

  /** An offered character joins unless 64 wait; then it is counted, up to 2^32 - 1. */
  lemma OfferLaw(contents: seq<char>, c: char, dropped: uint32)
    ensures |contents| < 64 ==> Offered(contents, Some(c)) == contents + [c] && Gained(contents, Some(c)) == [c] && DroppedAfter(contents, Some(c), dropped) == dropped
    ensures |contents| >= 64 ==> Offered(contents, Some(c)) == contents && Gained(contents, Some(c)) == []
    ensures |contents| >= 64 ==> DroppedAfter(contents, Some(c), dropped) as int == if dropped < 0xFFFF_FFFF then dropped + 1 else 0xFFFF_FFFF
  {
  }

  lemma OfferedNothing(contents: seq<char>, dropped: uint32)
    ensures Offered(contents, None) == contents && Gained(contents, None) == [] && DroppedAfter(contents, None, dropped) == dropped
  {
  }

  /** The keyboard's reaction to an interrupt on a line, given the registered handlers. */
  function TypedBy(irq: nat, handlers: seq<Option<Handler>>, m: Modifiers, raw: nat): (Modifiers, Option<char>)
    requires raw < 256
  {
    if irq < |handlers| && handlers[irq] == Some(KeyboardHandler) then Press(m, raw) else (m, None)
  }
}
