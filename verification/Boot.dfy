/**
 * The memory half of kernel_main: the map is read, then the frame allocator is built on it.
 */
module Boot {
  import opened Words
  import opened Multiboot
  import opened MemoryMap
  import opened FrameModel
  import opened Pmm

  /** The outcome of kernel_require on each of the two initialisers: a failure panics. */
  datatype Outcome = MapPanic(reason: Status) | PmmPanic(reason: Status) | Ready

  /** An accepted map tracks at least one frame. */
  lemma SomeFrameTracked(total: nat, regions: seq<Region>)
    requires TracksMap(total, regions)
    requires 1 <= |regions| && forall i | 0 <= i < |regions| :: ValidRegion(regions[i])
    ensures 1 <= total <= MAX_FRAMES
  {
    assert ValidRegion(regions[0]);
    assert ReachedBy(0, regions);
  }

  // ---- What boot keeps to itself, byte by byte ----

  predicate Contains(base: nat, length: nat, a: nat) {
    base <= a < base + length
  }

  /** A range contains the 4096 bytes from an address on. */
  ghost predicate Spans(base: nat, length: nat, first: nat) {
    forall a: nat | first <= a < first + 4096 :: Contains(base, length, a)
  }

  /** Those bytes all lie in one entry of type 1. */
  ghost predicate InOneAvailableEntry(first: nat, entries: seq<Entry>) {
    exists i | 0 <= i < |entries| :: entries[i].kind == 1 && Spans(entries[i].base, entries[i].length, first)
  }

  /**
   * The bytes never handed out: the first MiB, the kernel image, the two bitmaps of 131072 bytes,
   * the 52-byte Multiboot information structure and, when it names one, the memory map.
   */
  predicate KernelByte(a: nat, layout: Layout, infoAddress: nat, info: Info) {
    || a < 0x10_0000
    || layout.kernelStart <= a < layout.kernelEnd
    || layout.bitmapStart <= a < layout.bitmapStart + 131072
    || layout.ownedBitmapStart <= a < layout.ownedBitmapStart + 131072
    || infoAddress <= a < infoAddress + 52
    || (info.flags & 0x40 != 0 && info.mmapAddr != 0 && info.mmapAddr <= a < info.mmapAddr + info.mmapLength)
  }

  /** One of the 4096 bytes from an address on is such a byte. */
  ghost predicate HoldsKernelByte(first: nat, layout: Layout, infoAddress: nat, info: Info) {
    exists a: nat :: first <= a < first + 4096 && KernelByte(a, layout, infoAddress, info)
  }

  lemma ReservedBytes(layout: Layout, infoAddress: nat, info: Info, a: nat)
    requires infoAddress != 0
    ensures KernelByte(a, layout, infoAddress, info) <==> InAny(a, ReservedRanges(layout, infoAddress, info))
  {
    hide InAny;
    InJoined(LOW_MEMORY, KernelImage(layout), a);
    InJoined(LOW_MEMORY + KernelImage(layout), BitmapStorage(layout), a);
    InJoined(LOW_MEMORY + KernelImage(layout) + BitmapStorage(layout), BootData(infoAddress, info), a);
    InLowAndImage(layout, a);
    InBitmaps(layout, a);
    InBootData(infoAddress, info, a);
  }

  ghost predicate InAny(a: nat, ranges: seq<Range>) {
    exists i :: 0 <= i < |ranges| && ByteInRange(a, ranges[i])
  }

  lemma InJoined(x: seq<Range>, y: seq<Range>, a: nat)
    ensures InAny(a, x + y) <==> InAny(a, x) || InAny(a, y)
  {
    if InAny(a, x) {
      var i :| 0 <= i < |x| && ByteInRange(a, x[i]);
      assert (x + y)[i] == x[i];
    }
    if InAny(a, y) {
      var i :| 0 <= i < |y| && ByteInRange(a, y[i]);
      assert (x + y)[|x| + i] == y[i];
    }
  }

  lemma InLowAndImage(layout: Layout, a: nat)
    ensures InAny(a, LOW_MEMORY) <==> a < 0x10_0000
    ensures InAny(a, KernelImage(layout)) <==> layout.kernelStart <= a < layout.kernelEnd
  {
    assert ByteInRange(a, LOW_MEMORY[0]) <==> a < 0x10_0000;
    if layout.kernelStart < layout.kernelEnd {
      assert ByteInRange(a, KernelImage(layout)[0]) <==> layout.kernelStart <= a < layout.kernelEnd;
    }
  }

  lemma InBitmaps(layout: Layout, a: nat)
    ensures InAny(a, BitmapStorage(layout)) <==>
      layout.bitmapStart <= a < layout.bitmapStart + 131072 || layout.ownedBitmapStart <= a < layout.ownedBitmapStart + 131072
  {
    var ranges := BitmapStorage(layout);
    assert ByteInRange(a, ranges[0]) <==> layout.bitmapStart <= a < layout.bitmapStart + 131072;
    assert ByteInRange(a, ranges[1]) <==> layout.ownedBitmapStart <= a < layout.ownedBitmapStart + 131072;
  }

  lemma InBootData(infoAddress: nat, info: Info, a: nat)
    requires infoAddress != 0
    ensures InAny(a, BootData(infoAddress, info)) <==>
      infoAddress <= a < infoAddress + 52 || (info.flags & 0x40 != 0 && info.mmapAddr != 0 && info.mmapAddr <= a < info.mmapAddr + info.mmapLength)
  {
    var ranges := BootData(infoAddress, info);
    assert ByteInRange(a, ranges[0]) <==> infoAddress <= a < infoAddress + 52;
    if |ranges| == 2 {
      assert ByteInRange(a, ranges[1]) <==> info.mmapAddr <= a < info.mmapAddr + info.mmapLength;
    }
  }

  lemma TouchesReserved(f: nat, layout: Layout, infoAddress: nat, info: Info)
    requires infoAddress != 0
    ensures TouchesAny(f, ReservedRanges(layout, infoAddress, info)) <==> HoldsKernelByte(4096 * f, layout, infoAddress, info)
  {
    hide ReservedRanges, KernelByte;
    var first := 4096 * f;
    var reserved := ReservedRanges(layout, infoAddress, info);
    if TouchesAny(f, reserved) {
      var i :| 0 <= i < |reserved| && Touches(f, reserved[i]);
      var a: nat :| ByteInFrame(a, f) && ByteInRange(a, reserved[i]);
      ReservedBytes(layout, infoAddress, info, a);
      assert 4096 * f <= a < 4096 * f + 4096 && KernelByte(a, layout, infoAddress, info);
    }
    if HoldsKernelByte(4096 * f, layout, infoAddress, info) {
      var a: nat :| 4096 * f <= a < 4096 * f + 4096 && KernelByte(a, layout, infoAddress, info);
      ReservedBytes(layout, infoAddress, info, a);
      var i :| 0 <= i < |reserved| && ByteInRange(a, reserved[i]);
      assert ByteInFrame(a, f) && Touches(f, reserved[i]);
    }
  }

  /** Some entry reaches past the frame's first byte. */
  ghost predicate ReachedByEntry(f: nat, entries: seq<Entry>) {
    exists i | 0 <= i < |entries| :: entries[i].length != 0 && 4096 * f < entries[i].base + entries[i].length
  }

  lemma EntriesDecide(f: nat, regions: seq<Region>, entries: seq<Entry>, picks: seq<nat>)
    requires Represents(regions, entries, picks)
    ensures InsideUsable(f, regions) <==> InOneAvailableEntry(4096 * f, entries)
    ensures ReachedBy(f, regions) <==> ReachedByEntry(f, entries)
  {
    UsableEntries(f, regions, entries, picks);
    if ReachedBy(f, regions) {
      var k :| 0 <= k < |regions| && f * FRAME_SIZE < regions[k].base + regions[k].length;
      assert entries[picks[k]].length != 0;
    }
    if ReachedByEntry(f, entries) {
      var i :| 0 <= i < |entries| && entries[i].length != 0 && 4096 * f < entries[i].base + entries[i].length;
      var k :| 0 <= k < |picks| && picks[k] == i;
      assert regions[k].base == entries[i].base;
    }
  }

  lemma UsableEntries(f: nat, regions: seq<Region>, entries: seq<Entry>, picks: seq<nat>)
    requires Represents(regions, entries, picks)
    ensures InsideUsable(f, regions) <==> InOneAvailableEntry(4096 * f, entries)
  {
    hide Inside, Spans;
    if InsideUsable(f, regions) {
      var k :| 0 <= k < |regions| && regions[k].kind == Usable && Inside(f, RangeOf(regions[k]));
      InsideBytes(f, regions[k]);
      assert entries[picks[k]].kind == 1;
    }
    if InOneAvailableEntry(4096 * f, entries) {
      var i :| 0 <= i < |entries| && entries[i].kind == 1 && Spans(entries[i].base, entries[i].length, 4096 * f);
      SpansNonEmpty(entries[i].base, entries[i].length, 4096 * f);
      var k :| 0 <= k < |picks| && picks[k] == i;
      InsideBytes(f, regions[k]);
    }
  }

  lemma SpansNonEmpty(base: nat, length: nat, first: nat)
    requires Spans(base, length, first)
    ensures length != 0
  {
    assert Contains(base, length, first);
  }

  lemma InsideBytes(f: nat, r: Region)
    ensures Inside(f, RangeOf(r)) <==> Spans(r.base, r.length, 4096 * f)
  {
    InsideBounds(f, RangeOf(r));
    if Spans(r.base, r.length, 4096 * f) {
      assert Contains(r.base, r.length, 4096 * f) && Contains(r.base, r.length, 4096 * f + 4095);
    }
  }

  /**
   * After boot a tracked frame is free if and only if it lies wholly in one available entry and
   * holds no kernel byte; frames are tracked up to the end of the last non-empty entry, within 4 GiB.
   */
  ghost predicate BootedWith(s: Frames, entries: seq<Entry>, layout: Layout, infoAddress: nat, info: Info) {
    && (forall f: nat :: f < s.total <==> f < 0x10_0000 && ReachedByEntry(f, entries))
    && (forall f: nat | f < s.total :: f !in s.used <==> InOneAvailableEntry(4096 * f, entries) && !HoldsKernelByte(4096 * f, layout, infoAddress, info))
    && s.owned == {}
  }

  lemma BootFramesMeans(total: nat, regions: seq<Region>, entries: seq<Entry>, picks: seq<nat>, layout: Layout, infoAddress: nat, info: Info)
    requires infoAddress != 0 && TracksMap(total, regions) && Represents(regions, entries, picks)
    ensures BootedWith(BootFrames(total, regions, ReservedRanges(layout, infoAddress, info)), entries, layout, infoAddress, info)
  {
    hide ReservedRanges, HoldsKernelByte, InOneAvailableEntry, ReachedByEntry, Represents, InsideUsable, ReachedBy, TouchesAny, FramesBelow;
    forall f: nat
      ensures InsideUsable(f, regions) <==> InOneAvailableEntry(4096 * f, entries)
      ensures ReachedBy(f, regions) <==> ReachedByEntry(f, entries)
      ensures TouchesAny(f, ReservedRanges(layout, infoAddress, info)) <==> HoldsKernelByte(4096 * f, layout, infoAddress, info)
    {
      EntriesDecide(f, regions, entries, picks);
      TouchesReserved(f, layout, infoAddress, info);
    }
  }

  /**
   * Whatever bytes the boot loader left: either the map is rejected, or the allocator fails
   * only for want of a free frame, or it is ready with exactly the free frames the map and
   * the reserved ranges call for.
   */
  method BootMemory(memory: MemoryMap, pmm: Pmm, infoAddress: nat, info: Info, area: seq<byte>) returns (outcome: Outcome)
    requires memory.Valid() && pmm.Valid()
    requires infoAddress < U32 && info.Valid() && |area| == info.mmapLength
    modifies memory, memory.regions, pmm, pmm.bitmap, pmm.ownedBitmap
    ensures memory.Valid() && pmm.Valid()
    ensures outcome.MapPanic? <==>
      infoAddress == 0 || info.flags & 0x40 == 0 || info.mmapAddr == 0 || info.mmapLength == 0
      || info.mmapAddr + info.mmapLength > 0xFFFF_FFFF || !exists entries :: ReadableAs(area, entries)
    ensures outcome.PmmPanic? ==> outcome.reason == OutOfMemory
    ensures !outcome.MapPanic? ==> 1 <= pmm.totalFrames <= MAX_FRAMES
    ensures !outcome.MapPanic? ==> forall entries | Tiles(entries, area) ::
      && Accepts(entries, area) && memory.Stored() == Normalise(entries)
      && TracksMap(pmm.totalFrames, Normalise(entries))
      && pmm.View() == BootFrames(pmm.totalFrames, Normalise(entries), ReservedRanges(pmm.layout, infoAddress, info))
    ensures !outcome.MapPanic? ==> forall entries | TiledBy(area, entries) :: BootedWith(pmm.View(), entries, pmm.layout, infoAddress, info)
    ensures !outcome.MapPanic? ==> Reachable(pmm.View())
    ensures outcome.Ready? ==> pmm.initialized && pmm.freeFrames > 0
  {
    hide TracksMap, BootFrames, ReservedRanges, Accepts, Normalise, TallyOf, FramesBelow, FreeSet, TiledBy, ReadableAs, Represents, BootedWith, LengthSum;
    AcceptableIsReadable(area);
    var status := memory.Initialize(infoAddress, info, area);
    if status != Ok {
      return MapPanic(status);
    }
    ghost var regions := memory.Stored();
    assert forall i | 0 <= i < |regions| :: ValidRegion(regions[i]);
    status := pmm.Initialize(memory, infoAddress, info);
    SomeFrameTracked(pmm.totalFrames, regions);
    BootReachable(pmm.totalFrames, regions, ReservedRanges(pmm.layout, infoAddress, info));
    forall entries | TiledBy(area, entries)
      ensures BootedWith(pmm.View(), entries, pmm.layout, infoAddress, info)
    {
      var picks :| Represents(regions, entries, picks);
      BootFramesMeans(pmm.totalFrames, regions, entries, picks, pmm.layout, infoAddress, info);
    }
    if status != Ok {
      return PmmPanic(status);
    }
    return Ready;
  }

  /**
   * After boot and any requests, an allocation returns the address of 4096 bytes that lie in one
   * available entry and hold none of the kernel's.
   */
  lemma AllocationsAvoidKernel(s: Frames, entries: seq<Entry>, layout: Layout, infoAddress: nat, info: Info, ops: seq<Op>, address: nat)
    requires BootedWith(s, entries, layout, infoAddress, info) && Reachable(s)
    ensures Step(Run(s, ops), Allocate).1 == Granted(address) ==>
      && address % 4096 == 0 && 0x10_0000 <= address && address + 4096 <= 0x1_0000_0000
      && InOneAvailableEntry(address, entries) && !HoldsKernelByte(address, layout, infoAddress, info)
  {
    hide Run, Step, Reachable, FramesBelow, ReachedByEntry, Ledger, Replies;
    if Step(Run(s, ops), Allocate).1 == Granted(address) {
      var f := address / 4096;
      NoFrameTwice(s, ops, address);
      RunSafety(s, ops);
      GrantIsFree(s, Run(s, ops), f);
      assert f < s.total && f !in s.used;
      assert address == 4096 * f;
      assert !KernelByte(address, layout, infoAddress, info);
    }
  }

  /**
   * No allocation after boot ever returns a frame holding a byte of the kernel image, and so none
   * of the kernel heap, which the linker script places inside it.
   */
  lemma KernelMemoryNeverAllocated(total: nat, regions: seq<Region>, layout: Layout, infoAddress: nat, info: Info,
                                   ops: seq<Op>, address: nat, a: nat)
    requires total <= MAX_FRAMES && layout.kernelStart <= a < layout.kernelEnd
    ensures Step(Run(BootFrames(total, regions, ReservedRanges(layout, infoAddress, info)), ops), Allocate).1 == Granted(address)
      ==> !ByteInFrame(a, address / FRAME_SIZE)
  {
    hide BootFrames, Run, Step, BitmapStorage, BootData;
    var reserved := ReservedRanges(layout, infoAddress, info);
    AllocationsAreSafe(total, regions, reserved, ops, address);
    assert reserved[1] == Range(layout.kernelStart, layout.kernelEnd - layout.kernelStart);
    assert ByteInRange(a, reserved[1]);
  }
}
