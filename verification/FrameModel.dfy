/**
 * What the physical memory manager computes, on sets of frames: which frames are free when
 * initialisation ends, and what any sequence of allocations and frees does to them.
 */
module FrameModel {
  import opened Words
  import opened MemoryMap

  const FRAME_SIZE: nat := 4096
  const MAX_FRAMES: nat := 0x10_0000
  const MAX_PHYSICAL_BYTES: nat := 0x1_0000_0000

  /** Every natural number can be a frame index. */
  predicate FrameIndex(f: int) {
    0 <= f
  }

  function FramesBelow(n: nat): (frames: set<nat>)
    ensures forall f: nat :: f in frames <==> f < n
    ensures |frames| == n
  {
    var frames := set f: nat | f < n && FrameIndex(f);
    SizeBelow(n, frames);
    frames
  }

  lemma {:induction false} SizeBelow(n: nat, frames: set<nat>)
    requires forall f: nat :: f in frames <==> f < n
    ensures |frames| == n
    decreases n
  {
    if n > 0 {
      SizeBelow(n - 1, frames - {n - 1});
    } else {
      assert frames == {};
    }
  }

  // ---- Frames and byte ranges ----

  datatype Range = Range(base: nat, length: nat)

  ghost predicate ByteInFrame(a: nat, f: nat) {
    f * FRAME_SIZE <= a < (f + 1) * FRAME_SIZE
  }

  ghost predicate ByteInRange(a: nat, r: Range) {
    r.base <= a < r.base + r.length
  }

  /** Every byte of the frame is in the range. */
  ghost predicate Inside(f: nat, r: Range) {
    forall a: nat | ByteInFrame(a, f) :: ByteInRange(a, r)
  }

  /** Some byte of the frame is in the range. */
  ghost predicate Touches(f: nat, r: Range) {
    exists a: nat :: ByteInFrame(a, f) && ByteInRange(a, r)
  }

  lemma InsideBounds(f: nat, r: Range)
    ensures Inside(f, r) <==> r.base <= f * FRAME_SIZE && (f + 1) * FRAME_SIZE <= r.base + r.length
  {
    if Inside(f, r) {
      assert ByteInFrame(f * FRAME_SIZE, f) && ByteInFrame(f * FRAME_SIZE + (FRAME_SIZE - 1), f);
      assert ByteInRange(f * FRAME_SIZE, r) && ByteInRange(f * FRAME_SIZE + (FRAME_SIZE - 1), r);
    }
  }

  lemma TouchesBounds(f: nat, r: Range)
    ensures Touches(f, r) <==> 0 < r.length && r.base < (f + 1) * FRAME_SIZE && f * FRAME_SIZE < r.base + r.length
  {
    if 0 < r.length && r.base < (f + 1) * FRAME_SIZE && f * FRAME_SIZE < r.base + r.length {
      var a := if r.base < f * FRAME_SIZE then f * FRAME_SIZE else r.base;
      assert ByteInFrame(a, f) && ByteInRange(a, r);
    }
  }

  // ---- What initialisation must establish ----

  function RangeOf(r: Region): Range {
    Range(r.base, r.length)
  }

  /** Some region ends above the start of the frame. */
  ghost predicate ReachedBy(f: nat, regions: seq<Region>) {
    exists i | 0 <= i < |regions| :: f * FRAME_SIZE < regions[i].base + regions[i].length
  }

  /** Frames are tracked up to the end of the highest region, within 4 GiB. */
  ghost predicate TracksMap(total: nat, regions: seq<Region>) {
    && total <= MAX_FRAMES
    && forall f: nat | f < MAX_FRAMES :: f < total <==> ReachedBy(f, regions)
  }

  ghost predicate InsideUsable(f: nat, regions: seq<Region>) {
    exists i | 0 <= i < |regions| :: regions[i].kind == Usable && Inside(f, RangeOf(regions[i]))
  }

  ghost predicate TouchesAny(f: nat, ranges: seq<Range>) {
    exists i | 0 <= i < |ranges| :: Touches(f, ranges[i])
  }

  /** The tracked frames wholly inside a range. */
  ghost function FramesInside(total: nat, r: Range): set<nat> {
    set f: nat | f < total && Inside(f, r)
  }

  /** The tracked frames a range touches. */
  ghost function FramesTouching(total: nat, r: Range): set<nat> {
    set f: nat | f < total && Touches(f, r)
  }

  /** The tracked frames that touch one of the ranges. */
  ghost function TouchedFrames(total: nat, ranges: seq<Range>): set<nat> {
    set f: nat | f < total && TouchesAny(f, ranges)
  }

  ghost function UsableFrames(total: nat, regions: seq<Region>): set<nat> {
    set f: nat | f < total && InsideUsable(f, regions)
  }

  /** The frames that are free when initialisation ends: wholly inside one usable region, touching nothing reserved. */
  ghost function FreeAtBoot(total: nat, regions: seq<Region>, reserved: seq<Range>): set<nat> {
    UsableFrames(total, regions) - TouchedFrames(total, reserved)
  }

  /** The two bitmaps when initialisation ends: every bit beyond the free frames is one, nothing is owned. */
  ghost function BootFrames(total: nat, regions: seq<Region>, reserved: seq<Range>): Frames {
    Frames(total, FramesBelow(MAX_FRAMES) - FreeAtBoot(total, regions, reserved), {}, 0)
  }

  lemma TouchedFramesJoin(total: nat, a: seq<Range>, b: seq<Range>)
    ensures TouchedFrames(total, a + b) == TouchedFrames(total, a) + TouchedFrames(total, b)
  {
    forall f: nat
      ensures TouchesAny(f, a + b) <==> TouchesAny(f, a) || TouchesAny(f, b)
    {
      if TouchesAny(f, a) {
        var i :| 0 <= i < |a| && Touches(f, a[i]);
        assert (a + b)[i] == a[i];
      }
      if TouchesAny(f, b) {
        var i :| 0 <= i < |b| && Touches(f, b[i]);
        assert (a + b)[|a| + i] == b[i];
      }
    }
  }

  lemma TouchedByNone(total: nat)
    ensures TouchedFrames(total, []) == {}
  {
  }

  lemma UsableFramesOfNothing(total: nat)
    ensures UsableFrames(total, []) == {}
  {
  }

  lemma TouchedByOne(total: nat, r: Range)
    ensures TouchedFrames(total, [r]) == FramesTouching(total, r)
  {
    assert forall f: nat :: TouchesAny(f, [r]) <==> Touches(f, [r][0]);
  }

  lemma UsableFramesStep(total: nat, regions: seq<Region>, n: nat)
    requires n < |regions|
    ensures UsableFrames(total, regions[..n + 1])
         == UsableFrames(total, regions[..n]) + (if regions[n].kind == Usable then FramesInside(total, RangeOf(regions[n])) else {})
  {
    forall f: nat
      ensures InsideUsable(f, regions[..n + 1]) <==> InsideUsable(f, regions[..n]) || (regions[n].kind == Usable && Inside(f, RangeOf(regions[n])))
    {
      if InsideUsable(f, regions[..n]) {
        var i :| 0 <= i < n && regions[..n][i].kind == Usable && Inside(f, RangeOf(regions[..n][i]));
        assert regions[..n + 1][i] == regions[..n][i];
      }
      assert regions[..n + 1][n] == regions[n];
    }
  }

  // ---- The allocator on sets of frames ----

  /** Bits that are one in the two bitmaps, the number of tracked frames and the search hint. */
  datatype Frames = Frames(total: nat, used: set<nat>, owned: set<nat>, next: nat)

  function FreeSet(total: nat, used: set<nat>): set<nat> {
    FramesBelow(total) - used
  }

  function Free(s: Frames): set<nat> {
    FreeSet(s.total, s.used)
  }

  /** The first frame in [from, limit) whose used bit is zero. */
  function FirstFree(used: set<nat>, from: nat, limit: nat): (r: Option<nat>)
    ensures r.Some? ==> from <= r.value < limit && r.value !in used && forall g | from <= g < r.value :: g in used
    ensures r.None? ==> forall g | from <= g < limit :: g in used
    decreases limit - from
  {
    if from >= limit then None
    else if from !in used then Some(from)
    else FirstFree(used, from + 1, limit)
  }

  function Take(s: Frames, f: nat): Frames {
    Frames(s.total, s.used + {f}, s.owned + {f}, f + 1)
  }

  /** Next fit: from the hint up, then from zero up to the hint. */
  function NextFit(s: Frames): Option<nat> {
    match FirstFree(s.used, s.next, s.total)
    case Some(f) => Some(f)
    case None => FirstFree(s.used, 0, s.next)
  }

  function AllocateFrame(s: Frames): Frames {
    match NextFit(s)
    case None => s
    case Some(f) => Take(s, f)
  }

  predicate FreeAccepted(s: Frames, address: nat) {
    && address % FRAME_SIZE == 0
    && address / FRAME_SIZE < s.total
    && address / FRAME_SIZE in s.owned
  }

  function FreeFrame(s: Frames, address: nat): Frames {
    if !FreeAccepted(s, address) then s
    else
      var f := address / FRAME_SIZE;
      Frames(s.total, s.used - {f}, s.owned - {f}, Min(f, s.next))
  }

  // ---- Reachable states ----

  /** Holds after initialisation and after every operation since. */
  ghost predicate Reachable(s: Frames) {
    && s.next <= s.total <= MAX_FRAMES
    && s.owned <= s.used
    && (forall f | f in s.owned :: f < s.total)
    && forall f | 0 <= f < s.next :: f in s.used
  }

  /** Frames reserved for good: used but never handed out. */
  function ReservedFrames(s: Frames): set<nat> {
    s.used - s.owned
  }

  lemma OperationsKeepReachable(s: Frames, address: nat)
    requires Reachable(s)
    ensures Reachable(AllocateFrame(s))
    ensures Reachable(FreeFrame(s, address))
  {
  }

  /** In a reachable state the second scan never finds anything: next fit is lowest-address first fit. */
  lemma NextFitIsFirstFit(s: Frames)
    requires Reachable(s)
    ensures NextFit(s) == FirstFree(s.used, 0, s.total)
    ensures FirstFree(s.used, 0, s.next) == None
    ensures NextFit(s).None? <==> Free(s) == {}
  {
    var fit := FirstFree(s.used, 0, s.total);
    if fit.Some? {
      assert fit.value in Free(s);
    }
  }

  /** The two scans together miss no frame: allocation fails exactly when nothing is free. */
  lemma NextFitFails(s: Frames)
    requires s.next <= s.total
    ensures NextFit(s).None? <==> |Free(s)| == 0
  {
    if NextFit(s).Some? {
      assert NextFit(s).value in Free(s);
    } else {
      assert Free(s) == {};
    }
  }

  // ---- Runs ----

  datatype Op = Allocate | Release(address: nat)

  datatype Reply = Granted(address: nat) | Exhausted | Released | Refused

  function Step(s: Frames, op: Op): (Frames, Reply) {
    match op
    case Allocate =>
      (AllocateFrame(s), match NextFit(s) case None => Exhausted case Some(f) => Granted(f * FRAME_SIZE))
    case Release(address) =>
      (FreeFrame(s, address), if FreeAccepted(s, address) then Released else Refused)
  }

  function Run(s: Frames, ops: seq<Op>): Frames
    decreases |ops|
  {
    if ops == [] then s else Run(Step(s, ops[0]).0, ops[1..])
  }

  function Replies(s: Frames, ops: seq<Op>): (replies: seq<Reply>)
    ensures |replies| == |ops|
    decreases |ops|
  {
    if ops == [] then [] else [Step(s, ops[0]).1] + Replies(Step(s, ops[0]).0, ops[1..])
  }

  /** The addresses a caller holds, from nothing but its requests and the replies to them. */
  function Ledger(held: set<nat>, ops: seq<Op>, replies: seq<Reply>): set<nat>
    requires |ops| == |replies|
    decreases |ops|
  {
    if ops == [] then held
    else
      var held' :=
        if replies[0].Granted? then held + {replies[0].address}
        else if ops[0].Release? && replies[0].Released? then held - {ops[0].address}
        else held;
      Ledger(held', ops[1..], replies[1..])
  }

  function Addresses(frames: set<nat>): set<nat> {
    set f | f in frames :: f * FRAME_SIZE
  }

  lemma AddressesStep(frames: set<nat>, f: nat)
    ensures Addresses(frames + {f}) == Addresses(frames) + {f * FRAME_SIZE}
    ensures Addresses(frames - {f}) == Addresses(frames) - {f * FRAME_SIZE}
    ensures f * FRAME_SIZE in Addresses(frames) <==> f in frames
  {
    var less := Addresses(frames) - {f * FRAME_SIZE};
    forall a | a in less
      ensures a in Addresses(frames - {f})
    {
      var g :| g in frames && a == g * FRAME_SIZE;
      assert g in frames - {f};
    }
  }

  /** What one operation tells the caller matches what it did to the bitmaps. */
  lemma StepSafety(s: Frames, op: Op)
    requires Reachable(s)
    ensures var (s', reply) := Step(s, op);
      && Reachable(s') && s'.total == s.total
      && ReservedFrames(s') == ReservedFrames(s)
      && Addresses(s'.owned) == Ledger(Addresses(s.owned), [op], [reply])
  {
    var (s', reply) := Step(s, op);
    match op
    case Allocate =>
      if NextFit(s).Some? {
        AddressesStep(s.owned, NextFit(s).value);
      }
    case Release(address) =>
      OperationsKeepReachable(s, address);
      if FreeAccepted(s, address) {
        AddressesStep(s.owned, address / FRAME_SIZE);
        assert ReservedFrames(s') == ReservedFrames(s);
      }
  }

  /**
   * Whole-run safety. Whatever the callers do, including double, unaligned and out-of-range
   * frees, the reserved frames never change and the used frames are exactly those plus the
   * frames the callers hold.
   */
  lemma {:induction false} RunSafety(s: Frames, ops: seq<Op>)
    requires Reachable(s)
    ensures var s' := Run(s, ops);
      var held := Ledger(Addresses(s.owned), ops, Replies(s, ops));
      && Reachable(s') && s'.total == s.total
      && ReservedFrames(s') == ReservedFrames(s)
      && Addresses(s'.owned) == held
      && s'.used == ReservedFrames(s) + s'.owned
      && ReservedFrames(s) !! s'.owned
    decreases |ops|
  {
    if ops != [] {
      var (s1, reply) := Step(s, ops[0]);
      StepSafety(s, ops[0]);
      RunSafety(s1, ops[1..]);
      assert Replies(s, ops)[1..] == Replies(s1, ops[1..]);
    }
  }

  /**
   * After any run, an allocation returns a page-aligned 32-bit address nobody holds, outside
   * every reserved frame, and a free is accepted exactly for an address somebody holds.
   */
  lemma NoFrameTwice(s: Frames, ops: seq<Op>, address: nat)
    requires Reachable(s)
    ensures var s' := Run(s, ops);
      var held := Ledger(Addresses(s.owned), ops, Replies(s, ops));
      && (Step(s', Release(address)).1 == Released <==> address in held)
      && (Step(s', Allocate).1 == Granted(address) ==>
            && address !in held && address < U32 && address % FRAME_SIZE == 0
            && address / FRAME_SIZE < s.total
            && address / FRAME_SIZE !in ReservedFrames(s))
  {
    RunSafety(s, ops);
    var s' := Run(s, ops);
    if address in Addresses(s'.owned) {
      var f :| f in s'.owned && address == f * FRAME_SIZE;
    }
    if address % FRAME_SIZE == 0 {
      AddressesStep(s'.owned, address / FRAME_SIZE);
    }
  }

  /** A run after which the caller holds what it held before restores both bitmaps. */
  lemma BalancedRunRestores(s: Frames, ops: seq<Op>)
    requires Reachable(s)
    requires Ledger(Addresses(s.owned), ops, Replies(s, ops)) == Addresses(s.owned)
    ensures Run(s, ops).used == s.used && Run(s, ops).owned == s.owned
  {
    RunSafety(s, ops);
    AddressesInjective(Run(s, ops).owned, s.owned);
  }

  lemma AddressesInjective(a: set<nat>, b: set<nat>)
    requires Addresses(a) == Addresses(b)
    ensures a == b
  {
    forall f: nat
      ensures f in a <==> f in b
    {
      AddressesStep(a, f);
      AddressesStep(b, f);
    }
  }

  // ---- Allocating many, freeing in any order ----

  function Allocations(k: nat): seq<Op> {
    seq(k, _ => Allocate)
  }

  function Releases(addresses: seq<nat>): seq<Op> {
    seq(|addresses|, i requires 0 <= i < |addresses| => Release(addresses[i]))
  }

  /** The frames k consecutive allocations hand out. */
  function Grants(s: Frames, k: nat): seq<nat>
    decreases k
  {
    if k == 0 || NextFit(s).None? then [] else [NextFit(s).value] + Grants(AllocateFrame(s), k - 1)
  }

  function FrameAddresses(frames: seq<nat>): seq<nat> {
    seq(|frames|, i requires 0 <= i < |frames| => frames[i] * FRAME_SIZE)
  }

  function SetOf(xs: seq<nat>): set<nat> {
    set x | x in xs
  }

  lemma SetOfNothing()
    ensures SetOf([]) == {}
  {
  }

  lemma {:induction false} GrantsStopWhenFull(s: Frames, k: nat)
    requires NextFit(s).None?
    ensures Run(s, Allocations(k)) == s
    decreases k
  {
    if k > 0 {
      assert Allocations(k)[1..] == Allocations(k - 1);
      GrantsStopWhenFull(s, k - 1);
    }
  }

  /**
   * Consecutive allocations hand out strictly increasing addresses of frames that were free,
   * and the bitmaps record exactly those.
   */
  lemma {:induction false} GrantsIncrease(s: Frames, k: nat)
    requires Reachable(s)
    ensures var fs := Grants(s, k);
      && (forall i, j | 0 <= i < j < |fs| :: fs[i] < fs[j])
      && (forall i | 0 <= i < |fs| :: fs[i] < s.total && fs[i] !in s.used)
      && Run(s, Allocations(k)).total == s.total
      && Run(s, Allocations(k)).used == s.used + SetOf(fs)
      && Run(s, Allocations(k)).owned == s.owned + SetOf(fs)
    decreases k
  {
    hide SetOf, FirstFree, Reachable, Run, Step, AllocateFrame, FramesBelow;
    SetOfNothing();
    if k == 0 {
      RunOfNothing(s);
    } else if NextFit(s).None? {
      GrantsStopWhenFull(s, k);
    } else {
      var f, s1 := NextFit(s).value, AllocateFrame(s);
      NextGrant(s);
      RunAllocate(s, k);
      GrantsIncrease(s1, k - 1);
      GrantsStep(s, f, Grants(s1, k - 1), Run(s1, Allocations(k - 1)));
    }
  }

  lemma RunOfNothing(s: Frames)
    ensures Run(s, Allocations(0)) == s
  {
  }

  lemma RunAllocate(s: Frames, k: nat)
    requires k > 0
    ensures Run(s, Allocations(k)) == Run(AllocateFrame(s), Allocations(k - 1))
  {
    assert Allocations(k)[1..] == Allocations(k - 1);
  }

  lemma NextGrant(s: Frames)
    requires Reachable(s) && NextFit(s).Some?
    ensures var f := NextFit(s).value;
      && f < s.total && f !in s.used && (forall g | 0 <= g < f :: g in s.used)
      && AllocateFrame(s) == Take(s, f) && Reachable(AllocateFrame(s))
  {
    NextFitIsFirstFit(s);
    OperationsKeepReachable(s, 0);
  }

  lemma GrantsStep(s: Frames, f: nat, rest: seq<nat>, end: Frames)
    requires f < s.total && f !in s.used && forall g | 0 <= g < f :: g in s.used
    requires forall i, j | 0 <= i < j < |rest| :: rest[i] < rest[j]
    requires forall i | 0 <= i < |rest| :: rest[i] < s.total && rest[i] !in s.used + {f}
    requires end.used == s.used + {f} + SetOf(rest) && end.owned == s.owned + {f} + SetOf(rest)
    ensures var fs := [f] + rest;
      && (forall i, j | 0 <= i < j < |fs| :: fs[i] < fs[j])
      && (forall i | 0 <= i < |fs| :: fs[i] < s.total && fs[i] !in s.used)
      && end.used == s.used + SetOf(fs) && end.owned == s.owned + SetOf(fs)
  {
    assert SetOf([f] + rest) == {f} + SetOf(rest);
    assert forall i | 0 <= i < |rest| :: f < rest[i];
  }

  /** Releasing held frames, in any order, each once, removes exactly them from both bitmaps. */
  lemma {:induction false} ReleasesRemove(s: Frames, frames: seq<nat>)
    requires Reachable(s)
    requires forall i | 0 <= i < |frames| :: frames[i] in s.owned
    requires forall i, j | 0 <= i < j < |frames| :: frames[i] != frames[j]
    ensures var s' := Run(s, Releases(FrameAddresses(frames)));
      && s'.total == s.total && s'.used == s.used - SetOf(frames) && s'.owned == s.owned - SetOf(frames)
    decreases |frames|
  {
    var ops := Releases(FrameAddresses(frames));
    if frames != [] {
      var f, rest := frames[0], frames[1..];
      assert ops[0] == Release(f * FRAME_SIZE) && f * FRAME_SIZE / FRAME_SIZE == f;
      assert ops[1..] == Releases(FrameAddresses(rest));
      OperationsKeepReachable(s, f * FRAME_SIZE);
      ReleasesRemove(FreeFrame(s, f * FRAME_SIZE), rest);
      assert SetOf(frames) == {f} + SetOf(rest);
    }
  }

  lemma {:induction false} RunJoin(s: Frames, a: seq<Op>, b: seq<Op>)
    ensures Run(s, a + b) == Run(Run(s, a), b)
    decreases |a|
  {
    if a == [] {
      assert a + b == b;
    } else {
      assert (a + b)[1..] == a[1..] + b;
      RunJoin(Step(s, a[0]).0, a[1..], b);
    }
  }

  /** Allocating k frames and freeing them in any order restores both sets of bits. */
  lemma AllocateThenFreeRestores(s: Frames, k: nat, order: seq<nat>)
    requires Reachable(s)
    requires multiset(order) == multiset(Grants(s, k))
    ensures var s' := Run(s, Allocations(k) + Releases(FrameAddresses(order)));
      s'.total == s.total && s'.used == s.used && s'.owned == s.owned
  {
    var fs := Grants(s, k);
    GrantsIncrease(s, k);
    var full := Run(s, Allocations(k));
    RunSafety(s, Allocations(k));
    PermutationFacts(order, fs);
    ReleasesRemove(full, order);
    RunJoin(s, Allocations(k), Releases(FrameAddresses(order)));
  }

  lemma PermutationFacts(a: seq<nat>, b: seq<nat>)
    requires multiset(a) == multiset(b)
    requires forall i, j | 0 <= i < j < |b| :: b[i] < b[j]
    ensures SetOf(a) == SetOf(b)
    ensures forall i, j | 0 <= i < j < |a| :: a[i] != a[j]
  {
    forall x: nat
      ensures x in a <==> x in b
    {
      assert x in a <==> multiset(a)[x] > 0;
      assert x in b <==> multiset(b)[x] > 0;
    }
    forall i, j | 0 <= i < j < |a|
      ensures a[i] != a[j]
    {
      if a[i] == a[j] {
        TwiceInSequence(a, i, j);
        OnceInIncreasing(b, a[i]);
      }
    }
  }

  lemma TwiceInSequence(a: seq<nat>, i: nat, j: nat)
    requires i < j < |a| && a[i] == a[j]
    ensures multiset(a)[a[i]] >= 2
  {
    assert a == a[..j] + [a[j]] + a[j + 1..];
    assert a[i] in a[..j];
  }

  lemma {:induction false} OnceInIncreasing(b: seq<nat>, x: nat)
    requires forall i, j | 0 <= i < j < |b| :: b[i] < b[j]
    ensures multiset(b)[x] <= 1
    decreases |b|
  {
    if b != [] {
      OnceInIncreasing(b[1..], x);
      assert b == [b[0]] + b[1..];
      if b[0] == x {
        assert x !in b[1..];
      }
    }
  }

  // ---- From boot on ----

  /** Initialisation ends in a reachable state in which nothing has been handed out. */
  lemma BootReachable(total: nat, regions: seq<Region>, reserved: seq<Range>)
    requires total <= MAX_FRAMES
    ensures var s := BootFrames(total, regions, reserved);
      Reachable(s) && s.owned == {} && Free(s) == FreeAtBoot(total, regions, reserved)
  {
    hide FramesBelow;
  }

  lemma GrantIsFree(s: Frames, later: Frames, f: nat)
    requires later.total == s.total && ReservedFrames(later) == ReservedFrames(s) && s.owned == {}
    requires f < later.total && f !in ReservedFrames(s)
    ensures f in Free(s)
  {
    hide FramesBelow;
  }

  lemma FreeAtBootMeans(total: nat, regions: seq<Region>, reserved: seq<Range>, f: nat)
    requires f in FreeAtBoot(total, regions, reserved)
    ensures InsideUsable(f, regions) && !TouchesAny(f, reserved)
  {
  }

  /**
   * After boot and any sequence of requests, every frame handed out lies wholly inside one
   * usable region and shares no byte with any reserved range: in particular none with the
   * kernel image, and so none with the kernel heap the linker places inside it.
   */
  lemma AllocationsAreSafe(total: nat, regions: seq<Region>, reserved: seq<Range>, ops: seq<Op>, address: nat)
    requires total <= MAX_FRAMES
    ensures Step(Run(BootFrames(total, regions, reserved), ops), Allocate).1 == Granted(address) ==>
      && InsideUsable(address / FRAME_SIZE, regions)
      && forall a: nat, i | ByteInFrame(a, address / FRAME_SIZE) && 0 <= i < |reserved| :: !ByteInRange(a, reserved[i])
  {
    hide FramesBelow, BootFrames, FreeAtBoot, InsideUsable, Ledger;
    var s, f := BootFrames(total, regions, reserved), address / FRAME_SIZE;
    if Step(Run(s, ops), Allocate).1 == Granted(address) {
      BootReachable(total, regions, reserved);
      NoFrameTwice(s, ops, address);
      RunSafety(s, ops);
      GrantIsFree(s, Run(s, ops), f);
      FreeAtBootMeans(total, regions, reserved, f);
      forall a: nat, i | ByteInFrame(a, f) && 0 <= i < |reserved|
        ensures !ByteInRange(a, reserved[i])
      {
        assert !Touches(f, reserved[i]);
      }
    }
  }
}
