/**
 * The queued input service: input.c.
 *
 * A 64-slot ring whose head and tail are 32-bit counters that wrap. What the ring stands
 * for is the whole sequence of accepted characters and how many of them were taken.
 */
module Input {
  import opened Words
  import opened Bitmap

  const CAPACITY: nat := 64
  const INDEX_MASK: nat := 63

  // ---- Positions ----

  /** A queue position masked into an array index. */
  function QueueIndex(position: nat): (index: nat)
    requires position < U32
    ensures index == position % CAPACITY
  {
    MaskIsRemainder(position);
    And(position, INDEX_MASK)
  }

  /** Because the capacity is a power of two, the mask is a remainder. */
  lemma MaskIsRemainder(x: nat)
    ensures And(x, INDEX_MASK) == x % CAPACITY
  {
    hide And;
    assert Shift1(6) == 64;
    var quotient := LowDigits(x, 6);
  }

  /** The index of the n-th character does not notice that the 32-bit counter wrapped. */
  lemma WrappedIndex(n: nat)
    ensures QueueIndex(Wrap32(n)) == n % CAPACITY
  {
    hide QueueIndex;
    IndexUnique(n, 0x400_0000 * (n / 0x1_0000_0000) + Wrap32(n) / CAPACITY, Wrap32(n) % CAPACITY);
  }

  lemma IndexUnique(n: nat, quotient: nat, r: nat)
    requires n == CAPACITY * quotient + r && r < CAPACITY
    ensures n % CAPACITY == r
  {
  }

  lemma Wrap32Unique(x: int, quotient: int, r: int)
    requires x == 0x1_0000_0000 * quotient + r && 0 <= r < U32
    ensures Wrap32(x) == r
  {
  }

  /** Head minus tail, computed in 32 bits, is the true distance. */
  lemma WrappedDistance(head: nat, tail: nat)
    requires tail <= head < tail + U32
    ensures Wrap32(Wrap32(head) - Wrap32(tail)) == head - tail
  {
    Wrap32Unique(Wrap32(head) - Wrap32(tail), tail / 0x1_0000_0000 - head / 0x1_0000_0000, head - tail);
  }

  lemma WrappedSum(n: nat, i: nat)
    ensures Wrap32(Wrap32(n) + i) == Wrap32(n + i)
  {
    ghost var low := Wrap32(n) + i;
    Wrap32Unique(n + i, n / 0x1_0000_0000 + low / 0x1_0000_0000, Wrap32(low));
  }

  // ---- What a ring holds ----

  /** The number of queued characters, as 32-bit arithmetic gives it. */
  function Pending(head: nat, tail: nat): nat {
    Wrap32(head - tail)
  }

  /** The queued characters, oldest first, read through the wrapping positions. */
  function Queued(slots: seq<char>, head: nat, tail: nat): seq<char>
    requires |slots| == CAPACITY
  {
    seq(Pending(head, tail), i requires 0 <= i => slots[QueueIndex(Wrap32(tail + i))])
  }

  /** The ring holds accepted[taken..]: counters and slots agree with the history. */
  ghost predicate Holds(slots: seq<char>, head: nat, tail: nat, accepted: seq<char>, taken: nat) {
    && |slots| == CAPACITY
    && taken <= |accepted| <= taken + CAPACITY
    && head == Wrap32(|accepted|) && tail == Wrap32(taken)
    && forall i | taken <= i < |accepted| :: slots[i % CAPACITY] == accepted[i]
  }

  lemma QueuedAt(slots: seq<char>, head: nat, tail: nat, accepted: seq<char>, taken: nat, i: nat)
    requires Holds(slots, head, tail, accepted, taken) && i < |accepted| - taken
    ensures slots[QueueIndex(Wrap32(tail + i))] == accepted[taken + i]
  {
    hide Wrap32, QueueIndex;
    WrappedSum(taken, i);
    WrappedIndex(taken + i);
  }

  lemma HoldsQueued(slots: seq<char>, head: nat, tail: nat, accepted: seq<char>, taken: nat)
    requires Holds(slots, head, tail, accepted, taken)
    ensures Pending(head, tail) == |accepted| - taken
    ensures Queued(slots, head, tail) == accepted[taken..]
  {
    WrappedDistance(|accepted|, taken);
    forall i: nat | i < |accepted| - taken
      ensures Queued(slots, head, tail)[i] == accepted[taken..][i]
    {
      QueuedAt(slots, head, tail, accepted, taken, i);
    }
  }

  lemma HoldsBounds(slots: seq<char>, head: nat, tail: nat, accepted: seq<char>, taken: nat)
    requires Holds(slots, head, tail, accepted, taken)
    ensures |slots| == CAPACITY && taken <= |accepted| <= taken + CAPACITY
    ensures head == tail <==> taken == |accepted|
    ensures Pending(head, tail) == |accepted| - taken
  {
    WrappedDistance(|accepted|, taken);
  }

  /** Storing at the head slot and advancing head appends, as long as there is room. */
  lemma StoreAppends(slots: seq<char>, head: nat, tail: nat, accepted: seq<char>, taken: nat, c: char)
    requires Holds(slots, head, tail, accepted, taken) && |accepted| - taken < CAPACITY
    ensures QueueIndex(head) == |accepted| % CAPACITY
    ensures Holds(slots[QueueIndex(head) := c], head, tail, accepted, taken)
    ensures Holds(slots[QueueIndex(head) := c], Wrap32(head + 1), tail, accepted + [c], taken)
  {
    WrappedIndex(|accepted|);
    WrappedSum(|accepted|, 1);
    forall i | taken <= i < |accepted|
      ensures i % CAPACITY != |accepted| % CAPACITY
    {
      DistinctSlots(i, |accepted|);
    }
  }

  lemma DistinctSlots(i: nat, j: nat)
    requires i < j < i + CAPACITY
    ensures i % CAPACITY != j % CAPACITY
  {
  }

  /** Advancing tail past the oldest character removes exactly it. */
  lemma TakeAdvances(slots: seq<char>, head: nat, tail: nat, accepted: seq<char>, taken: nat)
    requires Holds(slots, head, tail, accepted, taken) && taken < |accepted|
    ensures slots[QueueIndex(tail)] == accepted[taken]
    ensures Holds(slots, head, Wrap32(tail + 1), accepted, taken + 1)
  {
    hide QueueIndex, Wrap32;
    WrappedIndex(taken);
    WrappedSum(taken, 1);
  }

  // ---- The service itself ----

  class InputQueue {
    const queue: array<char>
    var head: uint32
    var tail: uint32
    var dropped: uint32
    ghost var accepted: seq<char>
    ghost var taken: nat
    ghost var lost: nat

    constructor ()
      ensures Valid() && fresh(queue) && accepted == [] && taken == 0 && lost == 0
    {
      queue := new char[CAPACITY](_ => '\0');
      head, tail, dropped := 0, 0, 0;
      accepted, taken, lost := [], 0, 0;
    }

    ghost predicate Valid()
      reads this, queue
    {
      && Holds(queue[..], head, tail, accepted, taken)
      && dropped == Min(lost, U32_MAX)
    }

    ghost function Contents(): seq<char>
      requires queue.Length == CAPACITY
      reads this, queue
    {
      Queued(queue[..], head, tail)
    }

    /** What waits is what was accepted and not taken. */
    lemma ContentsAre()
      requires Valid()
      ensures taken <= |accepted| && Contents() == accepted[taken..]
    {
      HoldsQueued(queue[..], head, tail, accepted, taken);
    }

    /** input_initialize */
    method Initialize()
      requires Valid()
      modifies this
      ensures Valid() && Contents() == [] && dropped == 0 && accepted == [] && taken == 0
    {
      head, tail, dropped := 0, 0, 0;
      accepted, taken, lost := [], 0, 0;
    }

    /** input_enqueue_character: appends unless 64 characters wait, and then counts the loss. */
    method EnqueueCharacter(ascii: char) returns (ok: bool)
      requires Valid()
      modifies `head, `dropped, `accepted, `lost, queue
      ensures Valid()
      ensures ok <==> |old(Contents())| < 64
      ensures Contents() == if ok then old(Contents()) + [ascii] else old(Contents())
      ensures accepted == (if ok then old(accepted) + [ascii] else old(accepted))
      ensures lost == old(lost) + (if ok then 0 else 1)
      ensures dropped == if ok then old(dropped) else IncrementSaturating(old(dropped))
    {
      hide Wrap32, QueueIndex, Queued, Pending;
      HoldsBounds(queue[..], head, tail, accepted, taken);
      HoldsQueued(queue[..], head, tail, accepted, taken);
      var h: nat, t: nat := head, tail;
      if Pending(h, t) >= CAPACITY {
        var count := dropped;
        if count != U32_MAX {
          Wrap32Small(count + 1);
          dropped := Wrap32(count + 1);
        }
        lost := lost + 1;
        return false;
      }
      StoreAppends(queue[..], head, tail, accepted, taken, ascii);
      queue[QueueIndex(h)] := ascii;
      head := Wrap32(h + 1);
      accepted := accepted + [ascii];
      assert queue[..] == old(queue[..])[QueueIndex(h) := ascii];
      HoldsQueued(queue[..], head, tail, accepted, taken);
      return true;
    }

    /** input_try_read_character */
    method TryReadCharacter() returns (ok: bool, ascii: char)
      requires Valid()
      modifies `tail, `taken
      ensures Valid()
      ensures ok <==> old(Contents()) != []
      ensures ok ==> ascii == old(Contents())[0] && Contents() == old(Contents())[1..] && taken == old(taken) + 1
      ensures !ok ==> Contents() == old(Contents()) && taken == old(taken)
    {
      hide Wrap32, QueueIndex, Queued, Pending;
      HoldsBounds(queue[..], head, tail, accepted, taken);
      HoldsQueued(queue[..], head, tail, accepted, taken);
      var t: nat, h: nat := tail, head;
      ascii := '\0';
      if t == h {
        return false, ascii;
      }
      TakeAdvances(queue[..], head, tail, accepted, taken);
      ascii := queue[QueueIndex(t)];
      tail := Wrap32(t + 1);
      taken := taken + 1;
      HoldsQueued(queue[..], head, tail, accepted, taken);
      return true, ascii;
    }

    /** input_get_pending_character_count */
    method GetPendingCharacterCount() returns (count: nat)
      requires Valid()
      ensures count == |Contents()| <= 64
    {
      HoldsQueued(queue[..], head, tail, accepted, taken);
      var h, t := head, tail;
      count := Pending(h, t);
    }
  }
}
