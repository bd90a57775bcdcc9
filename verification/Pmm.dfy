/**
 * The physical memory manager: pmm.c.
 *
 * The bitmaps are arrays of words and the counters are updated beside them, as in the
 * source; every method's contract speaks of the sets of frames the bitmaps stand for.
 */
module Pmm {
  import opened Words
  import opened Bitmap
  import opened MemoryMap
  import opened FrameModel
  import opened Multiboot

  const BITMAP_WORDS: nat := 0x8000
  const BITMAP_BYTES: nat := 0x2_0000
  const LOW_MEMORY_RESERVED_BYTES: nat := 0x10_0000

  // ---- 64-bit alignment ----

  const FRAME_MASK: nat := FRAME_SIZE - 1

  lemma LongRange()
    ensures Shift1(12) == FRAME_SIZE && Shift1(64) == U64
  {
    WordRange();
    assert Shift1(40) == 0x100_0000_0000;
    assert Shift1(48) == 0x1_0000_0000_0000;
    assert Shift1(56) == 0x100_0000_0000_0000;
  }

  /** What the two masks of 64-bit alignment keep. */
  lemma FrameMasks(value: nat)
    requires value < U64
    ensures And(value, FRAME_MASK) == value % FRAME_SIZE
    ensures And(value, U64_MAX - FRAME_MASK) == value / FRAME_SIZE * FRAME_SIZE
  {
    hide And, Shift1;
    LongRange();
    var quotient := LowDigits(value, 12);
    HighDigits(value, 12, 64);
  }

  /** pmm_align_down */
  function AlignDown(value: nat): (r: nat)
    requires value < U64
    ensures r % FRAME_SIZE == 0 && r <= value < r + FRAME_SIZE
  {
    FrameMasks(value);
    And(value, U64_MAX - FRAME_MASK)
  }

  lemma NoWrap(value: nat)
    ensures value < U64 ==> Wrap64(value) == value
  {
  }

  lemma AlignTop()
    ensures AlignDown(U64_MAX) == U64_MAX - FRAME_MASK && (U64_MAX - FRAME_MASK) % FRAME_SIZE == 0
  {
    hide And;
    FrameMasks(U64_MAX);
  }

  /** pmm_align_up */
  function AlignUp(value: nat): (r: nat)
    requires value < U64
    ensures r % FRAME_SIZE == 0
    ensures if value <= U64_MAX - FRAME_MASK then value <= r < value + FRAME_SIZE else r == U64_MAX - FRAME_MASK
  {
    hide And, Wrap64, AlignDown;
    FrameMasks(value);
    AlignTop();
    NoWrap(value + FRAME_MASK);
    if And(value, FRAME_MASK) == 0 then value
    else if value > U64_MAX - FRAME_MASK then AlignDown(U64_MAX)
    else AlignDown(Wrap64(value + FRAME_MASK))
  }

  /** pmm_range_end */
  function RangeEnd(base: nat, length: nat): (r: nat)
    requires base < U64 && length < U64
    ensures r == Min(base + length, U64_MAX)
  {
    if base > U64_MAX - length then U64_MAX else Wrap64(base + length)
  }

  /** Frame f starts at or after an address exactly when its index reaches the rounded-up address. */
  lemma AlignUpFrames(value: nat, f: nat)
    requires value < U64 && f <= MAX_FRAMES
    ensures AlignUp(value) / FRAME_SIZE <= f <==> value <= f * FRAME_SIZE
  {
    hide AlignUp;
  }

  /** Frame f ends by an address exactly when its index is below the rounded-down address. */
  lemma AlignDownFrames(value: nat, f: nat)
    requires value < U64
    ensures f < AlignDown(value) / FRAME_SIZE <==> (f + 1) * FRAME_SIZE <= value
    ensures AlignDown(value) / FRAME_SIZE <= f <==> value < (f + 1) * FRAME_SIZE
  {
  }

  /** Rounding inward frees exactly the tracked frames wholly inside the range. */
  lemma InwardRounding(base: nat, length: nat, f: nat)
    requires base < U64 && length < U64 && f < MAX_FRAMES
    ensures AlignUp(base) / FRAME_SIZE <= f < AlignDown(RangeEnd(base, length)) / FRAME_SIZE <==> Inside(f, Range(base, length))
  {
    InsideBounds(f, Range(base, length));
    AlignUpFrames(base, f);
    AlignDownFrames(RangeEnd(base, length), f);
  }

  /** The bytes a reservation covers: an empty range between two frame boundaries still marks the frame it lies in. */
  function Covered(base: nat, length: nat): Range {
    Range(base, if length == 0 && base % FRAME_SIZE != 0 then 1 else length)
  }

  /** Rounding outward reserves exactly the tracked frames the range touches. */
  lemma OutwardRounding(base: nat, length: nat, f: nat)
    requires base < U64 && length < U64 && f < MAX_FRAMES
    ensures AlignDown(base) / FRAME_SIZE <= f < AlignUp(RangeEnd(base, length)) / FRAME_SIZE <==> Touches(f, Covered(base, length))
  {
    hide AlignUp, AlignDown;
    TouchesBounds(f, Covered(base, length));
    AlignDownFrames(base, f);
    AlignUpFrames(RangeEnd(base, length), f);
    if length == 0 {
      BetweenBoundaries(base, f);
    }
  }

  lemma BetweenBoundaries(base: nat, f: nat)
    ensures base % FRAME_SIZE == 0 ==> !(f * FRAME_SIZE < base < (f + 1) * FRAME_SIZE)
    ensures base % FRAME_SIZE != 0 ==> base != f * FRAME_SIZE
  {
  }

  // ---- Where the kernel itself lives ----

  /** Linker symbols and the addresses of the two static bitmaps. */
  datatype Layout = Layout(kernelStart: nat, kernelEnd: nat, bitmapStart: nat, ownedBitmapStart: nat) {
    predicate Valid() {
      kernelStart < U32 && kernelEnd < U32 && bitmapStart < U32 && ownedBitmapStart < U32
    }
  }

  const LOW_MEMORY: seq<Range> := [Range(0, LOW_MEMORY_RESERVED_BYTES)]

  function KernelImage(layout: Layout): seq<Range> {
    if layout.kernelEnd <= layout.kernelStart then [] else [Range(layout.kernelStart, layout.kernelEnd - layout.kernelStart)]
  }

  function BitmapStorage(layout: Layout): seq<Range> {
    [Range(layout.bitmapStart, BITMAP_BYTES)] + [Range(layout.ownedBitmapStart, BITMAP_BYTES)]
  }

  function BootData(infoAddress: nat, info: Info): seq<Range> {
    if infoAddress == 0 then []
    else
      [Range(infoAddress, INFO_STRUCTURE_BYTES)]
      + (if info.flags & INFO_MEMORY_MAP != 0 && info.mmapAddr != 0 && info.mmapLength > 0 then [Range(info.mmapAddr, info.mmapLength)] else [])
  }

  /** Everything initialisation keeps out of the free pool. */
  function ReservedRanges(layout: Layout, infoAddress: nat, info: Info): seq<Range> {
    LOW_MEMORY + KernelImage(layout) + BitmapStorage(layout) + BootData(infoAddress, info)
  }

  class Pmm {
    const layout: Layout
    const bitmap: array<word>
    const ownedBitmap: array<word>
    var initialized: bool
    var totalFrames: nat
    var freeFrames: nat
    var usedFrames: nat
    var nextSearchFrame: nat

    constructor (layout: Layout)
      requires layout.Valid()
      ensures this.layout == layout && fresh(bitmap) && fresh(ownedBitmap)
      ensures bitmap.Length == 32768 && ownedBitmap.Length == 32768
      ensures Valid() && !initialized && totalFrames == 0
    {
      this.layout := layout;
      bitmap := new word[BITMAP_WORDS](_ => 0);
      ownedBitmap := new word[BITMAP_WORDS](_ => 0);
      initialized := false;
      totalFrames, freeFrames, usedFrames, nextSearchFrame := 0, 0, 0, 0;
    }

    ghost function Used(): set<nat>
      reads bitmap
    {
      Members(bitmap[..])
    }

    ghost function Owned(): set<nat>
      reads ownedBitmap
    {
      Members(ownedBitmap[..])
    }

    /** The abstract state: what the two bitmaps, the frame count and the hint stand for. */
    ghost function View(): Frames
      reads this, bitmap, ownedBitmap
    {
      Frames(totalFrames, Used(), Owned(), nextSearchFrame)
    }

    ghost predicate Valid()
      reads this, bitmap, ownedBitmap
    {
      && layout.Valid()
      && bitmap.Length == BITMAP_WORDS && ownedBitmap.Length == BITMAP_WORDS && bitmap != ownedBitmap
      && nextSearchFrame <= totalFrames <= MAX_FRAMES
      && freeFrames == |FreeSet(totalFrames, Used())|
      && freeFrames + usedFrames == totalFrames
    }

    /** pmm_is_valid_frame_index */
    predicate IsValidFrameIndex(frame: nat)
      reads this
    {
      frame < totalFrames && frame < MAX_FRAMES
    }

    /** pmm_is_frame_index_used */
    method IsFrameIndexUsed(frame: nat) returns (used: bool)
      requires bitmap.Length == BITMAP_WORDS && frame < MAX_FRAMES
      ensures used <==> frame in Used()
    {
      used := TestBit(bitmap, frame);
    }

    /** pmm_is_frame_allocated */
    method IsFrameAllocated(frame: nat) returns (owned: bool)
      requires ownedBitmap.Length == BITMAP_WORDS && frame < MAX_FRAMES
      ensures owned <==> frame in Owned()
    {
      owned := TestBit(ownedBitmap, frame);
    }

    /** pmm_mark_frame_used */
    method MarkFrameUsed(frame: nat)
      requires Valid()
      modifies `freeFrames, `usedFrames, bitmap
      ensures Valid()
      ensures Used() == if frame < totalFrames then old(Used()) + {frame} else old(Used())
    {
      hide FramesBelow, Members, FreeSet;
      if !IsValidFrameIndex(frame) {
        return;
      }
      var used := IsFrameIndexUsed(frame);
      if used {
        assert Used() == old(Used()) + {frame};
        return;
      }
      SetBit(bitmap, frame);
      FreeCounts(totalFrames, old(Used()), frame);
      if freeFrames > 0 {
        freeFrames := freeFrames - 1;
      }
      usedFrames := Wrap32(usedFrames + 1);
    }

    /** pmm_mark_frame_free */
    method MarkFrameFree(frame: nat)
      requires Valid()
      modifies `freeFrames, `usedFrames, bitmap
      ensures Valid()
      ensures Used() == if frame < totalFrames then old(Used()) - {frame} else old(Used())
    {
      hide FramesBelow, Members, FreeSet;
      if !IsValidFrameIndex(frame) {
        return;
      }
      var used := IsFrameIndexUsed(frame);
      if !used {
        assert Used() == old(Used()) - {frame};
        return;
      }
      ClearBit(bitmap, frame);
      FreeCounts(totalFrames, old(Used()), frame);
      freeFrames := Wrap32(freeFrames + 1);
      if usedFrames > 0 {
        usedFrames := usedFrames - 1;
      }
    }

    /** pmm_mark_frame_allocated */
    method MarkFrameAllocated(frame: nat)
      requires Valid()
      modifies ownedBitmap
      ensures Valid()
      ensures Owned() == if frame < totalFrames then old(Owned()) + {frame} else old(Owned())
    {
      if !IsValidFrameIndex(frame) {
        return;
      }
      SetBit(ownedBitmap, frame);
    }

    /** pmm_mark_frame_unallocated */
    method MarkFrameUnallocated(frame: nat)
      requires Valid()
      modifies ownedBitmap
      ensures Valid()
      ensures Owned() == if frame < totalFrames then old(Owned()) - {frame} else old(Owned())
    {
      if !IsValidFrameIndex(frame) {
        return;
      }
      ClearBit(ownedBitmap, frame);
    }

    /** pmm_mark_range_free */
    method MarkRangeFree(base: nat, length: nat)
      requires Valid() && base < U64 && length < U64
      modifies `freeFrames, `usedFrames, bitmap
      ensures Valid()
      ensures Used() == old(Used()) - FramesInside(totalFrames, Range(base, length))
    {
      hide FramesBelow, Interval, AlignUp, AlignDown, RangeEnd, Members, FreeSet, FramesInside;
      var endAddress := RangeEnd(base, length);
      var firstFrame := AlignUp(base) / FRAME_SIZE;
      var lastFrame := AlignDown(endAddress) / FRAME_SIZE;
      ghost var covered := FramesInside(totalFrames, Range(base, length));
      InwardInterval(base, length, totalFrames);
      assert covered == Interval(firstFrame, Min(lastFrame, totalFrames));
      IntervalEmpty(firstFrame, Min(lastFrame, totalFrames));
      IntervalEmpty(firstFrame, firstFrame);
      if firstFrame >= totalFrames {
        return;
      }
      if lastFrame > totalFrames {
        lastFrame := totalFrames;
      }
      var frame := firstFrame;
      while frame < lastFrame
        invariant Valid()
        invariant if firstFrame < lastFrame then firstFrame <= frame <= lastFrame else frame == firstFrame
        invariant Used() == old(Used()) - Interval(firstFrame, frame)
        decreases lastFrame - frame
      {
        MarkFrameFree(frame);
        IntervalStep(firstFrame, frame);
        frame := frame + 1;
      }
      assert Interval(firstFrame, frame) == covered;
    }

    /** pmm_mark_range_used */
    method MarkRangeUsed(base: nat, length: nat)
      requires Valid() && base < U64 && length < U64
      modifies `freeFrames, `usedFrames, bitmap
      ensures Valid()
      ensures Used() == old(Used()) + FramesTouching(totalFrames, Covered(base, length))
    {
      hide FramesBelow, Interval, AlignUp, AlignDown, RangeEnd, Members, FreeSet, FramesTouching;
      var endAddress := RangeEnd(base, length);
      var firstFrame := AlignDown(base) / FRAME_SIZE;
      var lastFrame := AlignUp(endAddress) / FRAME_SIZE;
      ghost var covered := FramesTouching(totalFrames, Covered(base, length));
      OutwardInterval(base, length, totalFrames);
      assert covered == Interval(firstFrame, Min(lastFrame, totalFrames));
      IntervalEmpty(firstFrame, Min(lastFrame, totalFrames));
      IntervalEmpty(firstFrame, firstFrame);
      if firstFrame >= totalFrames {
        return;
      }
      if lastFrame > totalFrames {
        lastFrame := totalFrames;
      }
      var frame := firstFrame;
      while frame < lastFrame
        invariant Valid()
        invariant if firstFrame < lastFrame then firstFrame <= frame <= lastFrame else frame == firstFrame
        invariant Used() == old(Used()) + Interval(firstFrame, frame)
        decreases lastFrame - frame
      {
        MarkFrameUsed(frame);
        IntervalStep(firstFrame, frame);
        frame := frame + 1;
      }
      assert Interval(firstFrame, frame) == covered;
    }

    /** pmm_find_highest_physical_address */
    method FindHighestPhysicalAddress(memory: MemoryMap) returns (highest: nat)
      requires memory.Shaped()
      ensures TracksMap(highest / FRAME_SIZE, memory.Stored())
      ensures highest <= MAX_PHYSICAL_BYTES && highest % FRAME_SIZE == 0
      ensures forall k: nat :: highest <= k * FRAME_SIZE <==> EndsBy(memory.Stored(), k)
    {
      hide AlignUp;
      highest := 0;
      for i := 0 to memory.regionCount
        invariant highest <= U64_MAX
        invariant forall j | 0 <= j < i :: RangeEnd(memory.regions[j].base, memory.regions[j].length) <= highest
        invariant highest == 0 || exists j | 0 <= j < i :: RangeEnd(memory.regions[j].base, memory.regions[j].length) == highest
      {
        var region := memory.regions[i];
        var endAddress := RangeEnd(region.base, region.length);
        if endAddress > highest {
          highest := endAddress;
        }
      }
      ghost var top := highest;
      if highest > MAX_PHYSICAL_BYTES {
        highest := MAX_PHYSICAL_BYTES;
      }
      highest := AlignUp(highest);
      HighestTracksMap(memory.Stored(), top);
      HighestIsLeast(memory.Stored(), top);
    }

    /** pmm_reset_bitmap */
    method ResetBitmap()
      requires Valid() && totalFrames == 0
      modifies bitmap, ownedBitmap
      ensures Valid() && Used() == FramesBelow(MAX_FRAMES) && Owned() == {}
    {
      hide FramesBelow, Members, FreeSet;
      for i := 0 to BITMAP_WORDS
        invariant forall j | 0 <= j < i :: bitmap[j] == U32_MAX && ownedBitmap[j] == 0
      {
        bitmap[i] := U32_MAX;
        ownedBitmap[i] := 0;
      }
      UniformMembers(bitmap[..]);
      UniformMembers(ownedBitmap[..]);
      NothingTracked(old(Used()));
      NothingTracked(Used());
    }

    /** pmm_release_usable_memory_regions */
    method ReleaseUsableMemoryRegions(memory: MemoryMap)
      requires Valid() && memory.Shaped()
      modifies `freeFrames, `usedFrames, bitmap
      ensures Valid()
      ensures Used() == old(Used()) - UsableFrames(totalFrames, memory.Stored())
    {
      hide FramesBelow, Members, FreeSet, UsableFrames;
      ghost var regions := memory.Stored();
      UsableFramesOfNothing(totalFrames);
      for i := 0 to memory.regionCount
        invariant Valid() && memory.Shaped() && memory.Stored() == regions
        invariant Used() == old(Used()) - UsableFrames(totalFrames, regions[..i])
      {
        var region := memory.regions[i];
        UsableFramesStep(totalFrames, regions, i);
        if region.kind == Usable {
          MarkRangeFree(region.base, region.length);
        }
      }
      assert regions[..|regions|] == regions;
    }

    /** pmm_reserve_low_memory */
    method ReserveLowMemory()
      requires Valid()
      modifies `freeFrames, `usedFrames, bitmap
      ensures Valid()
      ensures Used() == old(Used()) + TouchedFrames(totalFrames, LOW_MEMORY)
    {
      hide FramesBelow, Members, FreeSet, TouchedFrames;
      TouchedByOne(totalFrames, LOW_MEMORY[0]);
      MarkRangeUsed(0, LOW_MEMORY_RESERVED_BYTES);
    }

    /** pmm_reserve_kernel_image */
    method ReserveKernelImage()
      requires Valid()
      modifies `freeFrames, `usedFrames, bitmap
      ensures Valid()
      ensures Used() == old(Used()) + TouchedFrames(totalFrames, KernelImage(layout))
    {
      hide FramesBelow, Members, FreeSet, TouchedFrames;
      TouchedByNone(totalFrames);
      if layout.kernelEnd <= layout.kernelStart {
        return;
      }
      TouchedByOne(totalFrames, KernelImage(layout)[0]);
      MarkRangeUsed(layout.kernelStart, layout.kernelEnd - layout.kernelStart);
    }

    /** pmm_reserve_bitmap_storage */
    method ReserveBitmapStorage()
      requires Valid()
      modifies `freeFrames, `usedFrames, bitmap
      ensures Valid()
      ensures Used() == old(Used()) + TouchedFrames(totalFrames, BitmapStorage(layout))
    {
      hide FramesBelow, Members, FreeSet, TouchedFrames;
      TouchedFramesJoin(totalFrames, [Range(layout.bitmapStart, BITMAP_BYTES)], [Range(layout.ownedBitmapStart, BITMAP_BYTES)]);
      TouchedByOne(totalFrames, Range(layout.bitmapStart, BITMAP_BYTES));
      TouchedByOne(totalFrames, Range(layout.ownedBitmapStart, BITMAP_BYTES));
      MarkRangeUsed(layout.bitmapStart, BITMAP_BYTES);
      MarkRangeUsed(layout.ownedBitmapStart, BITMAP_BYTES);
    }

    /** pmm_reserve_multiboot_information */
    method ReserveMultibootInformation(infoAddress: nat, info: Info)
      requires Valid() && infoAddress < U32 && info.Valid()
      modifies `freeFrames, `usedFrames, bitmap
      ensures Valid()
      ensures Used() == old(Used()) + TouchedFrames(totalFrames, BootData(infoAddress, info))
    {
      hide FramesBelow, Members, FreeSet, TouchedFrames;
      TouchedByNone(totalFrames);
      if infoAddress == 0 {
        return;
      }
      assert [Range(infoAddress, INFO_STRUCTURE_BYTES)] + [] == [Range(infoAddress, INFO_STRUCTURE_BYTES)];
      TouchedByOne(totalFrames, Range(infoAddress, INFO_STRUCTURE_BYTES));
      MarkRangeUsed(infoAddress, INFO_STRUCTURE_BYTES);
      if info.flags & INFO_MEMORY_MAP != 0 && info.mmapAddr != 0 && info.mmapLength > 0 {
        TouchedByOne(totalFrames, Range(info.mmapAddr, info.mmapLength));
        TouchedFramesJoin(totalFrames, [Range(infoAddress, INFO_STRUCTURE_BYTES)], [Range(info.mmapAddr, info.mmapLength)]);
        MarkRangeUsed(info.mmapAddr, info.mmapLength);
      }
    }

    /** The four reservations of pmm_initialize, in its order. */
    method ReserveEverything(infoAddress: nat, info: Info)
      requires Valid() && infoAddress < U32 && info.Valid()
      modifies `freeFrames, `usedFrames, bitmap
      ensures Valid()
      ensures Used() == old(Used()) + TouchedFrames(totalFrames, ReservedRanges(layout, infoAddress, info))
    {
      hide FramesBelow, Members, FreeSet, TouchedFrames;
      ReserveLowMemory();
      ReserveKernelImage();
      ReserveBitmapStorage();
      ReserveMultibootInformation(infoAddress, info);
      ReservedTogether(totalFrames, layout, infoAddress, info);
    }

    /** The release and reserve steps of pmm_initialize, starting from all-ones bitmaps. */
    method FillBitmap(memory: MemoryMap, infoAddress: nat, info: Info)
      requires Valid() && memory.Shaped() && infoAddress < U32 && info.Valid()
      requires Used() == FramesBelow(MAX_FRAMES)
      modifies `freeFrames, `usedFrames, bitmap
      ensures Valid()
      ensures Used() == BootFrames(totalFrames, memory.Stored(), ReservedRanges(layout, infoAddress, info)).used
    {
      hide FramesBelow, Members, FreeSet, TouchedFrames, UsableFrames, ReservedRanges, FreeAtBoot;
      BootSets(totalFrames, memory.Stored(), ReservedRanges(layout, infoAddress, info));
      ReleaseUsableMemoryRegions(memory);
      ReserveEverything(infoAddress, info);
    }

    /** pmm_initialize */
    method Initialize(memory: MemoryMap, infoAddress: nat, info: Info) returns (status: Status)
      requires Valid() && memory.Shaped() && infoAddress < U32 && info.Valid()
      modifies this, bitmap, ownedBitmap
      ensures Valid() && (initialized <==> status == Ok)
      ensures status ==
        if infoAddress == 0 then InvalidArgument
        else if !memory.initialized || memory.truncated then NotReady
        else if totalFrames == 0 then Unavailable
        else if freeFrames == 0 then OutOfMemory
        else Ok
      ensures status == InvalidArgument || status == NotReady ==> View() == Frames(0, old(Used()), old(Owned()), 0)
      ensures status != InvalidArgument && status != NotReady ==>
        && TracksMap(totalFrames, memory.Stored())
        && View() == BootFrames(totalFrames, memory.Stored(), ReservedRanges(layout, infoAddress, info))
    {
      hide FramesBelow, Members, FreeSet, UsableFrames, TouchedFrames, FreeAtBoot, TracksMap, ReservedRanges;
      ghost var regions, reserved := memory.Stored(), ReservedRanges(layout, infoAddress, info);
      initialized := false;
      totalFrames, freeFrames, usedFrames, nextSearchFrame := 0, 0, 0, 0;
      NothingTracked(Used());
      if infoAddress == 0 {
        return InvalidArgument;
      }
      if !memory.initialized || memory.truncated {
        return NotReady;
      }
      ResetBitmap();
      var highest := FindHighestPhysicalAddress(memory);
      BootWithNoFrames(memory.Stored(), ReservedRanges(layout, infoAddress, info));
      if highest == 0 {
        return Unavailable;
      }
      totalFrames := highest / FRAME_SIZE;
      if totalFrames == 0 {
        return Unavailable;
      }
      usedFrames := totalFrames;
      freeFrames := 0;
      NothingFree(totalFrames);
      FillBitmap(memory, infoAddress, info);
      if freeFrames == 0 {
        return OutOfMemory;
      }
      initialized := true;
      return Ok;
    }

    /** What both scans of pmm_allocate_frame do with the frame they find. */
    method TakeFrame(frame: nat) returns (address: nat)
      requires Valid() && frame < totalFrames && frame !in Used()
      modifies `freeFrames, `usedFrames, `nextSearchFrame, bitmap, ownedBitmap
      ensures Valid() && View() == Take(old(View()), frame) && address == frame * FRAME_SIZE
    {
      hide FramesBelow, Members, FreeSet, IsSet, BitMask, AndWord;
      MarkFrameUsed(frame);
      MarkFrameAllocated(frame);
      address := Wrap32(frame * FRAME_SIZE);
      nextSearchFrame := frame + 1;
    }

    /** pmm_allocate_frame */
    method AllocateFrame() returns (ok: bool, address: nat)
      requires Valid()
      modifies `freeFrames, `usedFrames, `nextSearchFrame, bitmap, ownedBitmap
      ensures Valid()
      ensures !initialized ==> !ok && View() == old(View())
      ensures initialized ==>
        && View() == FrameModel.AllocateFrame(old(View()))
        && ok == NextFit(old(View())).Some?
        && (ok ==> address == NextFit(old(View())).value * FRAME_SIZE)
      ensures ok <==> initialized && old(freeFrames) > 0
    {
      hide FramesBelow, Members, FreeSet, FirstFree, IsSet, BitMask, AndWord;
      address := 0;
      if !initialized {
        return false, address;
      }
      ghost var before := View();
      NextFitFails(before);
      for frame := nextSearchFrame to totalFrames
        invariant Valid() && View() == before
        invariant forall g | nextSearchFrame <= g < frame :: g in before.used
      {
        var used := IsFrameIndexUsed(frame);
        if !used {
          address := TakeFrame(frame);
          return true, address;
        }
      }
      for frame := 0 to nextSearchFrame
        invariant Valid() && View() == before
        invariant forall g | 0 <= g < frame :: g in before.used
      {
        var used := IsFrameIndexUsed(frame);
        if !used {
          address := TakeFrame(frame);
          return true, address;
        }
      }
      return false, address;
    }

    /** pmm_free_frame */
    method FreeFrame(address: nat) returns (ok: bool)
      requires Valid() && address < U32
      modifies `freeFrames, `usedFrames, `nextSearchFrame, bitmap, ownedBitmap
      ensures Valid()
      ensures !initialized ==> !ok && View() == old(View())
      ensures initialized ==> View() == FrameModel.FreeFrame(old(View()), address) && ok == FreeAccepted(old(View()), address)
    {
      hide FramesBelow, Members, FreeSet;
      if !initialized {
        return false;
      }
      if address % FRAME_SIZE != 0 {
        return false;
      }
      var frame := address / FRAME_SIZE;
      if !IsValidFrameIndex(frame) {
        return false;
      }
      var owned := IsFrameAllocated(frame);
      if !owned {
        return false;
      }
      MarkFrameUnallocated(frame);
      MarkFrameFree(frame);
      if frame < nextSearchFrame {
        nextSearchFrame := frame;
      }
      return true;
    }

    /** pmm_is_frame_used */
    method IsFrameUsed(address: nat) returns (used: bool)
      requires Valid() && address < U32
      ensures used <==> address / FRAME_SIZE >= totalFrames || address / FRAME_SIZE in Used()
    {
      var frame := address / FRAME_SIZE;
      if !IsValidFrameIndex(frame) {
        return true;
      }
      used := IsFrameIndexUsed(frame);
    }

    /** pmm_run_basic_self_test: in every reachable state it passes exactly when a frame is free, and leaves no trace. */
    method RunBasicSelfTest() returns (passed: bool)
      requires Valid() && Reachable(View())
      modifies `freeFrames, `usedFrames, `nextSearchFrame, bitmap, ownedBitmap
      ensures Valid() && Reachable(View())
      ensures passed <==> initialized && old(freeFrames) > 0
      ensures bitmap[..] == old(bitmap[..]) && ownedBitmap[..] == old(ownedBitmap[..])
      ensures freeFrames == old(freeFrames) && usedFrames == old(usedFrames)
    {
      hide FramesBelow, Members, FreeSet;
      var freeBefore, usedBefore := freeFrames, usedFrames;
      ghost var before := View();
      AllocateThenRelease(before);
      var ok, address := AllocateFrame();
      passed := ok;
      if ok {
        passed := IsFrameUsed(address);
        passed := passed && freeFrames == Wrap32(freeBefore - 1) && usedFrames == Wrap32(usedBefore + 1);
        if passed {
          passed := FreeFrame(address);
          passed := passed && freeFrames == freeBefore && usedFrames == usedBefore;
        }
      }
      MembersDetermineWords(bitmap[..], old(bitmap[..]));
      MembersDetermineWords(ownedBitmap[..], old(ownedBitmap[..]));
    }
  }

  /** Allocating from a reachable state succeeds exactly when a frame is free, and freeing that frame undoes it. */
  lemma AllocateThenRelease(s: Frames)
    requires Reachable(s)
    ensures NextFit(s).Some? <==> |Free(s)| > 0
    ensures Reachable(FrameModel.AllocateFrame(s))
    ensures NextFit(s).Some? ==>
      var f := NextFit(s).value;
      var taken := FrameModel.AllocateFrame(s);
      var back := FrameModel.FreeFrame(taken, f * FRAME_SIZE);
      && f < s.total && f * FRAME_SIZE < U32 && FreeAccepted(taken, f * FRAME_SIZE)
      && |Free(taken)| == |Free(s)| - 1
      && Reachable(back) && back.used == s.used && back.owned == s.owned && back.total == s.total
  {
    NextFitIsFirstFit(s);
    OperationsKeepReachable(s, 0);
    if NextFit(s).Some? {
      var f := NextFit(s).value;
      FreeCounts(s.total, s.used, f);
      TakeGivesBack(s, f);
      OperationsKeepReachable(FrameModel.AllocateFrame(s), f * FRAME_SIZE);
    }
  }

  lemma TakeGivesBack(s: Frames, f: nat)
    requires f < s.total && f !in s.used && f !in s.owned
    ensures FreeAccepted(Take(s, f), f * FRAME_SIZE)
    ensures FrameModel.FreeFrame(Take(s, f), f * FRAME_SIZE) == s.(next := f)
  {
    assert f * FRAME_SIZE / FRAME_SIZE == f;
    assert s.used + {f} - {f} == s.used && s.owned + {f} - {f} == s.owned;
  }

  // ---- Initialisation as one set equation ----

  lemma BootWithNoFrames(regions: seq<Region>, reserved: seq<Range>)
    ensures FreeAtBoot(0, regions, reserved) == {}
  {
    hide FramesBelow;
  }

  lemma NothingTracked(used: set<nat>)
    ensures FreeSet(0, used) == {}
  {
    hide FramesBelow;
  }

  lemma NothingFree(total: nat)
    requires total <= MAX_FRAMES
    ensures FreeSet(total, FramesBelow(MAX_FRAMES)) == {}
  {
    hide FramesBelow;
  }

  lemma BootSets(total: nat, regions: seq<Region>, reserved: seq<Range>)
    requires total <= MAX_FRAMES
    ensures FramesBelow(MAX_FRAMES) - UsableFrames(total, regions) + TouchedFrames(total, reserved) == BootFrames(total, regions, reserved).used
  {
    hide FramesBelow;
  }

  lemma ReservedTogether(total: nat, layout: Layout, infoAddress: nat, info: Info)
    ensures TouchedFrames(total, LOW_MEMORY) + TouchedFrames(total, KernelImage(layout)) + TouchedFrames(total, BitmapStorage(layout))
              + TouchedFrames(total, BootData(infoAddress, info))
         == TouchedFrames(total, ReservedRanges(layout, infoAddress, info))
  {
    TouchedFramesJoin(total, LOW_MEMORY, KernelImage(layout));
    TouchedFramesJoin(total, LOW_MEMORY + KernelImage(layout), BitmapStorage(layout));
    TouchedFramesJoin(total, LOW_MEMORY + KernelImage(layout) + BitmapStorage(layout), BootData(infoAddress, info));
  }

  lemma HighestTracksMap(regions: seq<Region>, top: nat)
    requires top <= U64_MAX
    requires forall j | 0 <= j < |regions| :: regions[j].base < U64 && regions[j].length < U64
    requires forall j | 0 <= j < |regions| :: RangeEnd(regions[j].base, regions[j].length) <= top
    requires top == 0 || exists j | 0 <= j < |regions| :: RangeEnd(regions[j].base, regions[j].length) == top
    ensures TracksMap(AlignUp(Min(top, MAX_PHYSICAL_BYTES)) / FRAME_SIZE, regions)
  {
    var highest := Min(top, MAX_PHYSICAL_BYTES);
    AlignUpFrames(highest, MAX_FRAMES);
    forall f: nat | f < MAX_FRAMES
      ensures f < AlignUp(highest) / FRAME_SIZE <==> ReachedBy(f, regions)
    {
      AlignUpFrames(highest, f);
      if f * FRAME_SIZE < top {
        var j :| 0 <= j < |regions| && RangeEnd(regions[j].base, regions[j].length) == top;
        assert f * FRAME_SIZE < regions[j].base + regions[j].length;
      }
      if ReachedBy(f, regions) {
        var j :| 0 <= j < |regions| && f * FRAME_SIZE < regions[j].base + regions[j].length;
        assert RangeEnd(regions[j].base, regions[j].length) <= top;
      }
    }
  }

  /** Within 4 GiB, no region reaches past the k-th frame boundary. */
  ghost predicate EndsBy(regions: seq<Region>, k: nat) {
    forall j | 0 <= j < |regions| :: Min(regions[j].base + regions[j].length, MAX_PHYSICAL_BYTES) <= k * FRAME_SIZE
  }

  /** The clipped and rounded maximum is the lowest frame boundary no region reaches past. */
  lemma HighestIsLeast(regions: seq<Region>, top: nat)
    requires top <= U64_MAX
    requires forall j | 0 <= j < |regions| :: regions[j].base < U64 && regions[j].length < U64
    requires forall j | 0 <= j < |regions| :: RangeEnd(regions[j].base, regions[j].length) <= top
    requires top == 0 || exists j | 0 <= j < |regions| :: RangeEnd(regions[j].base, regions[j].length) == top
    ensures var highest := AlignUp(Min(top, MAX_PHYSICAL_BYTES));
      && highest <= MAX_PHYSICAL_BYTES && highest % FRAME_SIZE == 0
      && forall k: nat :: highest <= k * FRAME_SIZE <==> EndsBy(regions, k)
  {
    hide AlignUp;
    var clipped := Min(top, MAX_PHYSICAL_BYTES);
    forall k: nat
      ensures AlignUp(clipped) <= k * FRAME_SIZE <==> EndsBy(regions, k)
    {
      assert AlignUp(clipped) <= k * FRAME_SIZE <==> clipped <= k * FRAME_SIZE;
      if top > 0 && EndsBy(regions, k) {
        var j :| 0 <= j < |regions| && RangeEnd(regions[j].base, regions[j].length) == top;
        assert Min(regions[j].base + regions[j].length, MAX_PHYSICAL_BYTES) <= k * FRAME_SIZE;
      }
      if clipped <= k * FRAME_SIZE {
        forall j | 0 <= j < |regions|
          ensures Min(regions[j].base + regions[j].length, MAX_PHYSICAL_BYTES) <= k * FRAME_SIZE
        {
          assert RangeEnd(regions[j].base, regions[j].length) <= top;
        }
      }
    }
  }

  // ---- Frame intervals ----

  function Interval(from: nat, to: nat): set<nat> {
    FramesBelow(to) - FramesBelow(from)
  }

  lemma IntervalStep(from: nat, to: nat)
    requires from <= to
    ensures Interval(from, to + 1) == Interval(from, to) + {to}
  {
  }

  lemma IntervalEmpty(from: nat, to: nat)
    ensures to <= from ==> Interval(from, to) == {}
  {
  }

  lemma InwardInterval(base: nat, length: nat, total: nat)
    requires base < U64 && length < U64 && total <= MAX_FRAMES
    ensures FramesInside(total, Range(base, length))
         == Interval(AlignUp(base) / FRAME_SIZE, Min(AlignDown(RangeEnd(base, length)) / FRAME_SIZE, total))
  {
    forall f: nat | f < total
      ensures AlignUp(base) / FRAME_SIZE <= f < AlignDown(RangeEnd(base, length)) / FRAME_SIZE <==> Inside(f, Range(base, length))
    {
      InwardRounding(base, length, f);
    }
  }

  lemma OutwardInterval(base: nat, length: nat, total: nat)
    requires base < U64 && length < U64 && total <= MAX_FRAMES
    ensures FramesTouching(total, Covered(base, length))
         == Interval(AlignDown(base) / FRAME_SIZE, Min(AlignUp(RangeEnd(base, length)) / FRAME_SIZE, total))
  {
    forall f: nat | f < total
      ensures AlignDown(base) / FRAME_SIZE <= f < AlignUp(RangeEnd(base, length)) / FRAME_SIZE <==> Touches(f, Covered(base, length))
    {
      OutwardRounding(base, length, f);
    }
  }

  /** Marking one tracked frame used or free moves the number of free frames by one. */
  lemma FreeCounts(total: nat, used: set<nat>, f: nat)
    requires f < total
    ensures f !in used ==> |FreeSet(total, used)| > 0 && |FreeSet(total, used + {f})| == |FreeSet(total, used)| - 1
    ensures f in used ==> |FreeSet(total, used - {f})| == |FreeSet(total, used)| + 1 <= total
  {
    if f in used {
      assert FreeSet(total, used - {f}) == FreeSet(total, used) + {f};
      SubsetSize(FreeSet(total, used - {f}), FramesBelow(total));
    } else {
      assert f in FreeSet(total, used);
      assert FreeSet(total, used + {f}) == FreeSet(total, used) - {f};
    }
  }

  lemma {:induction false} SubsetSize(a: set<nat>, b: set<nat>)
    requires a <= b
    ensures |a| <= |b|
  {
    if a != {} {
      var x :| x in a;
      SubsetSize(a - {x}, b - {x});
    }
  }
}
