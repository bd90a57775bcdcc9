/**
 * The normalised physical memory map: memory.c.
 */
module MemoryMap {
  import opened Words
  import opened Multiboot

  const MAX_REGIONS: nat := 32

  datatype RegionType = Usable | Reserved

  datatype Region = Region(base: nat, length: nat, kind: RegionType)

  // ---- What a Multiboot map means ----

  function KindOf(e: Entry): RegionType {
    if e.kind == MEMORY_AVAILABLE then Usable else Reserved
  }

  /** The non-empty entries, in order. */
  function Normalise(entries: seq<Entry>): seq<Region> {
    if entries == [] then []
    else
      var front, e := Normalise(entries[..|entries| - 1]), entries[|entries| - 1];
      if e.length == 0 then front else front + [Region(e.base, e.length, KindOf(e))]
  }

  function CountOf(regions: seq<Region>, kind: RegionType): nat {
    if regions == [] then 0
    else CountOf(regions[..|regions| - 1], kind) + (if regions[|regions| - 1].kind == kind then 1 else 0)
  }

  function BytesOf(regions: seq<Region>, kind: RegionType): nat {
    if regions == [] then 0
    else BytesOf(regions[..|regions| - 1], kind) + (if regions[|regions| - 1].kind == kind then regions[|regions| - 1].length else 0)
  }

  /** A non-empty entry ends at 2^64 - 1 at the latest: the code compares with 2^64 - 1, so an entry
      whose last byte is the very last of the address space is outside. */
  predicate InAddressSpace(e: Entry) {
    e.length != 0 ==> e.base + e.length <= U64_MAX
  }

  /** The maps the kernel accepts: entries that tile the bytes, each ending at 2^64 - 1 at the
      latest, with 1 to 32 of them non-empty. */
  ghost predicate Accepts(entries: seq<Entry>, area: seq<byte>) {
    && Tiles(entries, area)
    && AllInAddressSpace(entries)
    && 1 <= |Normalise(entries)| <= MAX_REGIONS
  }

  ghost predicate Acceptable(area: seq<byte>) {
    exists entries :: Accepts(entries, area)
  }

  /** A region the PMM may rely on. */
  predicate ValidRegion(r: Region) {
    0 < r.length && r.base + r.length <= U64_MAX
  }

  /** One entry that reaches the top of the address space has its whole map rejected. */
  lemma TopByteRejected(area: seq<byte>, entries: seq<Entry>, i: nat)
    requires Tiles(entries, area) && i < |entries|
    requires entries[i].length != 0 && entries[i].base + entries[i].length == U64
    ensures !Acceptable(area)
  {
    assert !InAddressSpace(entries[i]);
    forall others | Tiles(others, area)
      ensures others == entries
    {
      SplitIsExact(area, entries);
      SplitIsExact(area, others);
    }
  }

  lemma {:induction false} NormaliseGrows(done: seq<Entry>, more: seq<Entry>)
    ensures Normalise(done) <= Normalise(done + more)
  {
    if more == [] {
      assert done + more == done;
    } else {
      NormaliseGrows(done, more[..|more| - 1]);
      assert (done + more)[..|done + more| - 1] == done + more[..|more| - 1];
    }
  }

  lemma NormaliseStep(done: seq<Entry>, e: Entry)
    ensures Normalise(done + [e]) == Normalise(done) + (if e.length == 0 then [] else [Region(e.base, e.length, KindOf(e))])
  {
    assert (done + [e])[..|done|] == done;
  }

  lemma CountsStep(regions: seq<Region>, r: Region, kind: RegionType)
    ensures CountOf(regions + [r], kind) == CountOf(regions, kind) + (if r.kind == kind then 1 else 0)
    ensures BytesOf(regions + [r], kind) == BytesOf(regions, kind) + (if r.kind == kind then r.length else 0)
  {
    assert (regions + [r])[..|regions|] == regions;
  }

  /** What the kernel reports about a region list: two 32-bit counts, two 64-bit byte totals. */
  datatype Tally = Tally(usableCount: nat, reservedCount: nat, usableBytes: nat, reservedBytes: nat)

  function TallyOf(regions: seq<Region>): Tally {
    Tally(CountOf(regions, Usable), CountOf(regions, Reserved),
          Wrap64(BytesOf(regions, Usable)), Wrap64(BytesOf(regions, Reserved)))
  }

  function AddToTally(t: Tally, length: nat, kind: RegionType): Tally {
    if kind == Usable then
      t.(usableCount := Wrap32(t.usableCount + 1), usableBytes := Wrap64(t.usableBytes + length))
    else
      t.(reservedCount := Wrap32(t.reservedCount + 1), reservedBytes := Wrap64(t.reservedBytes + length))
  }

  /** Adding to the running tally is the tally of the longer list; the counts do not wrap. */
  lemma TallyStep(regions: seq<Region>, r: Region)
    requires |regions| <= MAX_REGIONS
    ensures AddToTally(TallyOf(regions), r.length, r.kind) == TallyOf(regions + [r])
  {
    CountsPartition(regions);
    CountsStep(regions, r, Usable);
    CountsStep(regions, r, Reserved);
    WrapAdd64(BytesOf(regions, r.kind), r.length);
    Wrap32Small(CountOf(regions, r.kind) + 1);
  }

  lemma TallyCounts(regions: seq<Region>)
    ensures TallyOf(regions).usableCount + TallyOf(regions).reservedCount == |regions|
  {
    CountsPartition(regions);
  }

  lemma TallyOfNothing()
    ensures TallyOf([]) == Tally(0, 0, 0, 0)
  {
  }

  /** Every region is counted under exactly one type. */
  lemma {:induction false} CountsPartition(regions: seq<Region>)
    ensures CountOf(regions, Usable) + CountOf(regions, Reserved) == |regions|
  {
    if regions != [] {
      CountsPartition(regions[..|regions| - 1]);
    }
  }

  /** A map the kernel accepts leaves it holding only valid regions. */
  lemma {:induction false} NormalisedRegionsValid(entries: seq<Entry>)
    requires AllInAddressSpace(entries)
    ensures forall i | 0 <= i < |Normalise(entries)| :: ValidRegion(Normalise(entries)[i])
  {
    if entries != [] {
      NormalisedRegionsValid(entries[..|entries| - 1]);
      assert InAddressSpace(entries[|entries| - 1]);
    }
  }

  // ---- What a stored map says of its entries ----

  /**
   * The regions are the entries with the given indices: all the non-empty ones, in order, each
   * with its base and length, and usable exactly when its type word is 1.
   */
  ghost predicate Represents(regions: seq<Region>, entries: seq<Entry>, picks: seq<nat>) {
    && SelectsNonEmpty(entries, picks) && |picks| == |regions|
    && forall k | 0 <= k < |picks| :: SameRange(regions[k], entries[picks[k]])
  }

  /** The indices of all the non-empty entries, in increasing order. */
  ghost predicate SelectsNonEmpty(entries: seq<Entry>, picks: seq<nat>) {
    && Increasing(picks)
    && (forall k | 0 <= k < |picks| :: picks[k] < |entries| && entries[picks[k]].length != 0)
    && (forall i: nat | i < |entries| && entries[i].length != 0 :: i in picks)
  }

  predicate Increasing(picks: seq<nat>) {
    forall j, k | 0 <= j < k < |picks| :: picks[j] < picks[k]
  }

  predicate SameRange(r: Region, e: Entry) {
    r.base == e.base && r.length == e.length && (r.kind == Usable <==> e.kind == 1)
  }

  /** The indices of the non-empty entries. */
  function Picks(entries: seq<Entry>): seq<nat> {
    if entries == [] then []
    else
      var n := |entries| - 1;
      Picks(entries[..n]) + (if entries[n].length != 0 then [n] else [])
  }

  lemma {:induction false} NormaliseRepresents(entries: seq<Entry>)
    ensures Represents(Normalise(entries), entries, Picks(entries))
  {
    if entries != [] {
      var n := |entries| - 1;
      NormaliseRepresents(entries[..n]);
      OneMoreRepresented(entries, Normalise(entries[..n]), Picks(entries[..n]));
    }
  }

  lemma OneMoreRepresented(entries: seq<Entry>, regions: seq<Region>, picks: seq<nat>)
    requires entries != [] && Represents(regions, entries[..|entries| - 1], picks)
    ensures var n, e := |entries| - 1, entries[|entries| - 1];
      if e.length == 0 then Represents(regions, entries, picks)
      else Represents(regions + [Region(e.base, e.length, KindOf(e))], entries, picks + [n])
  {
    hide SelectsNonEmpty;
    var n, e := |entries| - 1, entries[|entries| - 1];
    var front := entries[..n];
    OneMoreSelected(entries, picks);
    PicksBelow(front, picks);
    forall k | 0 <= k < |picks|
      ensures SameRange(regions[k], entries[picks[k]])
    {
      assert front[picks[k]] == entries[picks[k]];
    }
  }

  lemma PicksBelow(entries: seq<Entry>, picks: seq<nat>)
    requires SelectsNonEmpty(entries, picks)
    ensures forall k | 0 <= k < |picks| :: picks[k] < |entries|
  {
  }

  lemma OneMoreSelected(entries: seq<Entry>, picks: seq<nat>)
    requires entries != [] && SelectsNonEmpty(entries[..|entries| - 1], picks)
    ensures var n := |entries| - 1; SelectsNonEmpty(entries, if entries[n].length == 0 then picks else picks + [n])
  {
    hide Increasing;
    var n := |entries| - 1;
    var front := entries[..n];
    assert forall k | 0 <= k < |picks| :: picks[k] < n && entries[picks[k]] == front[picks[k]];
    assert forall i: nat | i < n :: front[i] == entries[i];
    if entries[n].length != 0 {
      OneMoreIncreases(picks, n);
      forall i: nat | i < |entries| && entries[i].length != 0
        ensures i in picks + [n]
      {
        InLonger(picks, n, i);
      }
    }
  }

  lemma OneMoreIncreases(picks: seq<nat>, n: nat)
    requires Increasing(picks) && forall k | 0 <= k < |picks| :: picks[k] < n
    ensures Increasing(picks + [n])
  {
  }

  lemma InLonger(picks: seq<nat>, n: nat, i: nat)
    ensures i in picks + [n] <==> i in picks || i == n
  {
  }

  /** The entries with bytes in them. */
  ghost function NonEmpty(entries: seq<Entry>): set<nat> {
    set i: nat | i < |entries| && entries[i].length != 0
  }

  /** As many regions as non-empty entries. */
  lemma RepresentsAll(regions: seq<Region>, entries: seq<Entry>, picks: seq<nat>)
    requires Represents(regions, entries, picks)
    ensures |regions| == |NonEmpty(entries)|
  {
    IncreasingSize(picks);
    assert NonEmpty(entries) == PickSet(picks);
  }

  function PickSet(picks: seq<nat>): set<nat> {
    set k | k in picks
  }

  lemma PickOneMore(front: seq<nat>, last: nat)
    ensures PickSet(front + [last]) == PickSet(front) + {last}
  {
  }

  lemma {:induction false} IncreasingSize(picks: seq<nat>)
    requires Increasing(picks)
    ensures |PickSet(picks)| == |picks|
    decreases |picks|
  {
    if picks != [] {
      var n := |picks| - 1;
      var front, last := picks[..n], picks[n];
      IncreasingSize(front);
      hide PickSet;
      assert picks == front + [last];
      PickOneMore(front, last);
      assert last !in PickSet(front) by {
        NotBefore(picks);
      }
    }
  }

  lemma NotBefore(picks: seq<nat>)
    requires picks != [] && Increasing(picks)
    ensures picks[|picks| - 1] !in PickSet(picks[..|picks| - 1])
  {
  }

  /** The total length of the entries that are available memory, or of those that are not. */
  function LengthSum(entries: seq<Entry>, available: bool): nat {
    if entries == [] then 0
    else LengthSum(entries[1..], available) + (if (entries[0].kind == 1) == available then entries[0].length else 0)
  }

  /** How many non-empty entries are available memory, or are not. */
  function EntryCount(entries: seq<Entry>, available: bool): nat {
    if entries == [] then 0
    else EntryCount(entries[1..], available) + (if entries[0].length != 0 && (entries[0].kind == 1) == available then 1 else 0)
  }

  lemma {:induction false} LengthSumStep(entries: seq<Entry>, e: Entry, available: bool)
    ensures LengthSum(entries + [e], available) == LengthSum(entries, available) + (if (e.kind == 1) == available then e.length else 0)
    ensures EntryCount(entries + [e], available) == EntryCount(entries, available) + (if e.length != 0 && (e.kind == 1) == available then 1 else 0)
    decreases |entries|
  {
    if entries == [] {
      assert [] + [e] == [e];
    } else {
      assert (entries + [e])[1..] == entries[1..] + [e];
      LengthSumStep(entries[1..], e, available);
    }
  }

  /** Byte totals and counts are the sums over the entries. */
  lemma {:induction false} TotalsAreSums(entries: seq<Entry>)
    ensures BytesOf(Normalise(entries), Usable) == LengthSum(entries, true)
    ensures BytesOf(Normalise(entries), Reserved) == LengthSum(entries, false)
    ensures CountOf(Normalise(entries), Usable) == EntryCount(entries, true)
    ensures CountOf(Normalise(entries), Reserved) == EntryCount(entries, false)
  {
    if entries != [] {
      var n := |entries| - 1;
      var front, e := entries[..n], entries[n];
      TotalsAreSums(front);
      assert entries == front + [e];
      LengthSumStep(front, e, true);
      LengthSumStep(front, e, false);
      NormaliseStep(front, e);
      CountsStep(Normalise(front), Region(e.base, e.length, KindOf(e)), Usable);
      CountsStep(Normalise(front), Region(e.base, e.length, KindOf(e)), Reserved);
    }
  }

  /** A map is accepted when its bytes have the layout of entries of which 1 to 32 are non-empty and none of those passes 2^64 - 1. */
  ghost predicate ReadableAs(area: seq<byte>, entries: seq<Entry>) {
    && TiledBy(area, entries)
    && (forall i | 0 <= i < |entries| && entries[i].length != 0 :: entries[i].base + entries[i].length <= 0xFFFF_FFFF_FFFF_FFFF)
    && 1 <= |NonEmpty(entries)| <= 32
  }

  lemma AcceptsIsReadable(entries: seq<Entry>, area: seq<byte>)
    ensures Accepts(entries, area) <==> ReadableAs(area, entries)
  {
    hide TiledBy, Tiles, Normalise;
    TilesIsLayout(area, entries);
    NormaliseRepresents(entries);
    RepresentsAll(Normalise(entries), entries, Picks(entries));
  }

  lemma AcceptableIsReadable(area: seq<byte>)
    ensures Acceptable(area) <==> exists entries :: ReadableAs(area, entries)
  {
    hide Accepts, ReadableAs;
    forall entries
      ensures Accepts(entries, area) <==> ReadableAs(area, entries)
    {
      AcceptsIsReadable(entries, area);
    }
  }

  // ---- The kernel's stored map ----

  class MemoryMap {
    var initialized: bool
    var basicAvailable: bool
    var mapAvailable: bool
    var truncated: bool
    var lowerKb: nat
    var upperKb: nat
    var usableRegionCount: nat
    var reservedRegionCount: nat
    var totalUsableBytes: nat
    var totalReservedBytes: nat
    const regions: array<Region>
    var regionCount: nat

    constructor ()
      ensures fresh(regions) && Valid() && !initialized
    {
      regions := new Region[MAX_REGIONS](_ => Region(0, 0, Reserved));
      regionCount := 0;
      initialized, truncated := false, false;
      usableRegionCount, reservedRegionCount := 0, 0;
      totalUsableBytes, totalReservedBytes := 0, 0;
    }

    ghost function Stored(): seq<Region>
      requires regionCount <= regions.Length
      reads this, regions
    {
      regions[..regionCount]
    }

    ghost function Totals(): Tally
      reads this
    {
      Tally(usableRegionCount, reservedRegionCount, totalUsableBytes, totalReservedBytes)
    }

    /** Every stored region fits the machine's 64-bit fields. */
    ghost predicate Shaped()
      reads this, regions
    {
      && regions.Length == MAX_REGIONS
      && regionCount <= MAX_REGIONS
      && forall i | 0 <= i < regionCount :: regions[i].base < U64 && regions[i].length < U64
    }

    ghost predicate Valid()
      reads this, regions
    {
      && Shaped()
      && (!truncated ==> Totals() == TallyOf(Stored()))
      && (initialized ==> !truncated && 1 <= regionCount && forall i | 0 <= i < regionCount :: ValidRegion(regions[i]))
    }

    /** The loop of memory_reset_summary. */
    method ResetRegions()
      requires regions.Length == MAX_REGIONS
      modifies regions
      ensures forall i | 0 <= i < MAX_REGIONS :: regions[i] == Region(0, 0, Reserved)
    {
      for i := 0 to MAX_REGIONS
        invariant forall j | 0 <= j < i :: regions[j] == Region(0, 0, Reserved)
      {
        regions[i] := Region(0, 0, Reserved);
      }
    }

    /** memory_reset_summary */
    method ResetSummary()
      requires Valid()
      modifies this, regions
      ensures Valid() && Stored() == [] && !initialized && !basicAvailable && !mapAvailable && !truncated
      ensures lowerKb == 0 && upperKb == 0
      ensures forall i | 0 <= i < MAX_REGIONS :: regions[i] == Region(0, 0, Reserved)
    {
      hide TallyOf, ValidRegion;
      initialized, basicAvailable, mapAvailable, truncated := false, false, false, false;
      lowerKb, upperKb := 0, 0;
      usableRegionCount, reservedRegionCount := 0, 0;
      totalUsableBytes, totalReservedBytes := 0, 0;
      ResetRegions();
      regionCount := 0;
      TallyOfNothing();
      assert Stored() == [];
    }

    /** The counting half of memory_add_region. */
    method CountRegion(length: nat, kind: RegionType)
      modifies `usableRegionCount, `reservedRegionCount, `totalUsableBytes, `totalReservedBytes
      ensures Totals() == AddToTally(old(Totals()), length, kind)
    {
      if kind == Usable {
        usableRegionCount := Wrap32(usableRegionCount + 1);
        totalUsableBytes := Wrap64(totalUsableBytes + length);
      } else {
        reservedRegionCount := Wrap32(reservedRegionCount + 1);
        totalReservedBytes := Wrap64(totalReservedBytes + length);
      }
    }

    /** memory_add_region */
    method AddRegion(base: nat, length: nat, kind: RegionType)
      requires Valid() && !initialized && !truncated && base < U64 && length < U64
      modifies `truncated, `usableRegionCount, `reservedRegionCount, `totalUsableBytes, `totalReservedBytes, `regionCount, regions
      ensures Valid()
      ensures truncated <==> length != 0 && old(regionCount) == MAX_REGIONS
      ensures Totals() == if length == 0 then old(Totals()) else AddToTally(old(Totals()), length, kind)
      ensures Stored() == if length == 0 || truncated then old(Stored()) else old(Stored()) + [Region(base, length, kind)]
    {
      hide TallyOf, AddToTally;
      if length == 0 {
        return;
      }
      ghost var r := Region(base, length, kind);
      TallyStep(Stored(), r);
      CountRegion(length, kind);
      if regionCount >= MAX_REGIONS {
        truncated := true;
        return;
      }
      regions[regionCount] := Region(base, length, kind);
      regionCount := regionCount + 1;
      assert Stored() == old(Stored()) + [r];
    }

    /**
     * The checks memory_read_multiboot_map makes on one entry. The area holds the bytes at
     * [mmapAddr, mmapAddr + mmapLength); every read is an index into it, so none leaves the range.
     */
    static method ReadEntry(area: seq<byte>, offset: nat, remaining: nat, ghost done: seq<Entry>)
      returns (status: Status, total: nat, base: nat, length: nat, kind: RegionType, ghost e: Entry)
      requires remaining == |area| - offset && 0 < remaining
      requires Continue(area, done, offset) == Split(area) && AllInAddressSpace(done)
      ensures status == Ok || status == MalformedData
      ensures status != Ok ==> !Acceptable(area)
      ensures status == Ok ==> 0 < total <= remaining && Continue(area, done + [e], offset + total) == Split(area)
      ensures status == Ok ==> AllInAddressSpace(done + [e])
      ensures status == Ok ==> base == e.base < U64 && length == e.length < U64 && kind == KindOf(e)
      ensures Normalise(done + [e]) == Normalise(done) + (if e.length == 0 then [] else [Region(e.base, e.length, KindOf(e))])
      ensures status == Ok && |Normalise(done + [e])| > MAX_REGIONS ==> !Acceptable(area)
    {
      hide Split, Continue, Accepts, Normalise;
      total, base, length, kind, e := 0, 0, 0, Reserved, Entry(0, 0, 0, []);
      NormaliseStep(done, e);
      RejectMalformed(area, done, offset);
      if remaining < SIZE_FIELD_BYTES {
        return MalformedData, total, base, length, kind, e;
      }
      var size := FromLe(area[offset..offset + 4]);
      if size < ENTRY_BASE_SIZE {
        return MalformedData, total, base, length, kind, e;
      }
      if size > U32_MAX - SIZE_FIELD_BYTES {
        return MalformedData, total, base, length, kind, e;
      }
      total := SIZE_FIELD_BYTES + size;
      if total > remaining {
        return MalformedData, total, base, length, kind, e;
      }
      base := FromLe(area[offset + 4..offset + 12]);
      length := FromLe(area[offset + 12..offset + 20]);
      var wireKind := FromLe(area[offset + 20..offset + 24]);
      e := Entry(base, length, wireKind, area[offset + 24..offset + total]);
      ExtendReading(area, done, offset, total, e);
      NormaliseStep(done, e);
      if length != 0 && base > U64_MAX - length {
        return MalformedData, total, base, length, kind, e;
      }
      if wireKind == MEMORY_AVAILABLE {
        kind := Usable;
      }
      return Ok, total, base, length, kind, e;
    }

    /** memory_read_multiboot_map */
    method ReadMultibootMap(info: Info, area: seq<byte>) returns (status: Status)
      requires Valid() && !initialized && !truncated && Stored() == []
      requires info.Valid() && |area| == info.mmapLength
      modifies `truncated, `usableRegionCount, `reservedRegionCount, `totalUsableBytes, `totalReservedBytes, `regionCount, regions
      ensures Valid()
      ensures info.mmapAddr == 0 || info.mmapLength == 0 ==> status == InvalidArgument
      ensures info.mmapAddr != 0 && info.mmapLength != 0 ==>
        status == (if info.mmapAddr + info.mmapLength <= U32_MAX && Acceptable(area) then Ok else MalformedData)
      ensures status == Ok ==> !truncated && forall entries | Tiles(entries, area) :: Accepts(entries, area) && Stored() == Normalise(entries)
      ensures status == Ok <==> info.mmapAddr != 0 && info.mmapLength != 0 && info.mmapAddr + info.mmapLength <= 0xFFFF_FFFF && exists entries :: ReadableAs(area, entries)
      ensures status == Ok ==> forall entries | TiledBy(area, entries) :: exists picks :: Represents(Stored(), entries, picks)
    {
      hide Split, Continue, Accepts, FromLe, TallyOf, ReadableAs, Represents, TiledBy;
      AcceptableIsReadable(area);
      if info.mmapAddr == 0 || info.mmapLength == 0 {
        return InvalidArgument;
      }
      var current := info.mmapAddr;
      if info.mmapLength > U32_MAX - current {
        return MalformedData;
      }
      var end := current + info.mmapLength;
      ghost var done: seq<Entry> := [];
      ReadNothing(area);
      while current < end
        invariant info.mmapAddr <= current <= end <= U32_MAX && end == info.mmapAddr + |area|
        invariant Valid() && !truncated
        invariant Stored() == Normalise(done)
        invariant Continue(area, done, current - info.mmapAddr) == Split(area) && AllInAddressSpace(done)
      {
        var offset := current - info.mmapAddr;
        var next, total, base, length, kind, e := ReadEntry(area, offset, end - current, done);
        if next != Ok {
          return MalformedData;
        }
        AddRegion(base, length, kind);
        if truncated {
          return MalformedData;
        }
        done := done + [e];
        current := current + total;
        assert current - info.mmapAddr == offset + total;
      }
      ReadEverything(area, done);
      if regionCount == 0 {
        return MalformedData;
      }
      forall entries | TiledBy(area, entries)
        ensures exists picks :: Represents(Stored(), entries, picks)
      {
        TilesIsLayout(area, entries);
        NormaliseRepresents(entries);
      }
      return Ok;
    }

    /** memory_initialize, given the bytes of the map the information structure points to. */
    method Initialize(infoAddress: nat, info: Info, area: seq<byte>) returns (status: Status)
      requires Valid()
      requires info.Valid() && |area| == info.mmapLength
      modifies this, regions
      ensures Valid()
      ensures initialized == mapAvailable == (status == Ok)
      ensures status ==
        if infoAddress == 0 then InvalidArgument
        else if info.flags & 0x40 == 0 || info.mmapAddr == 0 || info.mmapLength == 0 then Unavailable
        else if info.mmapAddr + info.mmapLength <= 0xFFFF_FFFF && Acceptable(area) then Ok
        else MalformedData
      ensures status == Ok ==> forall entries | Tiles(entries, area) :: Accepts(entries, area) && Stored() == Normalise(entries)
      ensures status == Ok ==> Totals() == TallyOf(Stored()) && usableRegionCount + reservedRegionCount == regionCount
      ensures status == Ok ==> exists entries, picks :: ReadableAs(area, entries) && Represents(Stored(), entries, picks)
      ensures status == Ok ==> forall entries | TiledBy(area, entries) ::
        && ReadableAs(area, entries) && (exists picks :: Represents(Stored(), entries, picks))
        && totalUsableBytes == LengthSum(entries, true) % 0x1_0000_0000_0000_0000
        && totalReservedBytes == LengthSum(entries, false) % 0x1_0000_0000_0000_0000
        && usableRegionCount == EntryCount(entries, true) && reservedRegionCount == EntryCount(entries, false)
      ensures basicAvailable <==> infoAddress != 0 && info.flags & 0x01 != 0
      ensures lowerKb == (if basicAvailable then info.memLower else 0) && upperKb == (if basicAvailable then info.memUpper else 0)
    {
      hide TallyOf, Normalise, Tiles, ReadableAs, Represents, TiledBy, LengthSum, EntryCount;
      ResetSummary();
      if infoAddress == 0 {
        return InvalidArgument;
      }
      if info.flags & INFO_MEMORY != 0 {
        basicAvailable := true;
        lowerKb, upperKb := info.memLower, info.memUpper;
      }
      if info.flags & INFO_MEMORY_MAP == 0 || info.mmapAddr == 0 || info.mmapLength == 0 {
        return Unavailable;
      }
      status := ReadMultibootMap(info, area);
      if status != Ok {
        return status;
      }
      ghost var entries :| Accepts(entries, area);
      NormalisedRegionsValid(entries);
      TallyCounts(Stored());
      assert forall i | 0 <= i < regionCount :: regions[i] == Stored()[i];
      mapAvailable, initialized := true, true;
      WhatIsStored(area, Stored(), Totals());
      return Ok;
    }
  }

  // ---- Lemmas behind the read loop ----

  function Prepend(done: seq<Entry>, rest: Option<seq<Entry>>): Option<seq<Entry>> {
    match rest
    case None => None
    case Some(entries) => Some(done + entries)
  }

  lemma PrependNothing(rest: Option<seq<Entry>>)
    ensures Prepend([], rest) == rest
  {
    if rest.Some? {
      assert [] + rest.value == rest.value;
    }
  }

  lemma PrependStep(done: seq<Entry>, e: Entry, rest: Option<seq<Entry>>)
    ensures Prepend(done, Prepend([e], rest)) == Prepend(done + [e], rest)
  {
    if rest.Some? {
      assert done + ([e] + rest.value) == done + [e] + rest.value;
    }
  }

  /** At most one entry list tiles an area, and Split finds it. */
  lemma SplitDecides(area: seq<byte>)
    ensures forall entries :: Tiles(entries, area) <==> Split(area) == Some(entries)
  {
    forall entries
      ensures Tiles(entries, area) <==> Split(area) == Some(entries)
    {
      SplitIsExact(area, entries);
    }
  }

  /** The entries done followed by whatever the bytes from position on hold. */
  function Continue(area: seq<byte>, done: seq<Entry>, position: nat): Option<seq<Entry>>
    requires position <= |area|
  {
    Prepend(done, Split(area[position..]))
  }

  predicate AllInAddressSpace(entries: seq<Entry>) {
    forall i | 0 <= i < |entries| :: InAddressSpace(entries[i])
  }

  lemma ReadNothing(area: seq<byte>)
    ensures Continue(area, [], 0) == Split(area)
  {
    assert area[0..] == area;
    PrependNothing(Split(area));
  }

  /** Bytes that do not start an entry make the whole area unacceptable. */
  lemma RejectMalformed(area: seq<byte>, done: seq<Entry>, position: nat)
    requires position < |area| && Continue(area, done, position) == Split(area) && AllInAddressSpace(done)
    ensures position + 4 <= |area| ==> area[position..position + 4] == area[position..][..4]
    ensures !StartsWithEntry(area[position..]) ==> !Acceptable(area)
  {
    hide FromLe, StartsWithEntry, FirstEntry, Acceptable;
    if !StartsWithEntry(area[position..]) {
      assert Split(area) == None;
      NothingTiles(area);
    }
  }

  lemma NothingTiles(area: seq<byte>)
    requires Split(area) == None
    ensures !Acceptable(area)
  {
    hide Split, EncodeAll;
    SplitDecides(area);
  }

  /** Reading one well-formed entry: it extends the list unless it is the reason to reject the area. */
  lemma ExtendReading(area: seq<byte>, done: seq<Entry>, position: nat, total: nat, e: Entry)
    requires position < |area| && Continue(area, done, position) == Split(area) && AllInAddressSpace(done)
    requires StartsWithEntry(area[position..])
    requires total == SIZE_FIELD_BYTES + FromLe(area[position..][..4])
    requires e.base == FromLe(area[position + 4..position + 12])
    requires e.length == FromLe(area[position + 12..position + 20])
    requires e.kind == FromLe(area[position + 20..position + 24])
    requires e.padding == area[position + 24..position + total]
    ensures e.base < U64 && e.length < U64 && position + total <= |area|
    ensures !InAddressSpace(e) ==> !Acceptable(area)
    ensures |Normalise(done + [e])| > MAX_REGIONS ==> !Acceptable(area)
    ensures Continue(area, done + [e], position + total) == Split(area)
    ensures InAddressSpace(e) ==> AllInAddressSpace(done + [e])
  {
    EntryAt(area, position, total, e);
    PrependStep(done, e, Split(area[position + total..]));
    TooManyOrOutside(area, done, e, Split(area[position + total..]));
  }

  /** An entry that is out of range or one too many condemns every list it is part of. */
  lemma TooManyOrOutside(area: seq<byte>, done: seq<Entry>, e: Entry, rest: Option<seq<Entry>>)
    requires Split(area) == Prepend(done + [e], rest)
    ensures !InAddressSpace(e) ==> !Acceptable(area)
    ensures |Normalise(done + [e])| > MAX_REGIONS ==> !Acceptable(area)
  {
    SplitDecides(area);
    if rest.Some? {
      assert Split(area).value[|done|] == e;
      NormaliseGrows(done + [e], rest.value);
    }
  }

  lemma EntryAt(area: seq<byte>, position: nat, total: nat, e: Entry)
    requires position < |area| && StartsWithEntry(area[position..])
    requires total == SIZE_FIELD_BYTES + FromLe(area[position..][..4])
    requires e.base == FromLe(area[position + 4..position + 12])
    requires e.length == FromLe(area[position + 12..position + 20])
    requires e.kind == FromLe(area[position + 20..position + 24])
    requires e.padding == area[position + 24..position + total]
    ensures e.base < U64 && e.length < U64 && position + total <= |area|
    ensures Split(area[position..]) == Prepend([e], Split(area[position + total..]))
  {
    var rest := area[position..];
    Pow256Values();
    assert area[position + 4..position + 12] == rest[4..12];
    assert area[position + 12..position + 20] == rest[12..20];
    assert area[position + 20..position + 24] == rest[20..24];
    assert area[position + 24..position + total] == rest[24..total];
    assert e == FirstEntry(rest);
    assert rest[total..] == area[position + total..];
  }

  /** What the kernel holds after an accepted map, in terms of the bytes. */
  lemma WhatIsStored(area: seq<byte>, regions: seq<Region>, totals: Tally)
    requires Acceptable(area) && totals == TallyOf(regions)
    requires forall entries | Tiles(entries, area) :: Accepts(entries, area) && regions == Normalise(entries)
    ensures exists entries, picks :: ReadableAs(area, entries) && Represents(regions, entries, picks)
    ensures forall entries | TiledBy(area, entries) ::
      && ReadableAs(area, entries) && (exists picks :: Represents(regions, entries, picks))
      && totals.usableBytes == LengthSum(entries, true) % 0x1_0000_0000_0000_0000
      && totals.reservedBytes == LengthSum(entries, false) % 0x1_0000_0000_0000_0000
      && totals.usableCount == EntryCount(entries, true) && totals.reservedCount == EntryCount(entries, false)
  {
    hide Tiles, TiledBy, ReadableAs, Represents, Normalise, BytesOf, CountOf, LengthSum, EntryCount;
    forall entries | TiledBy(area, entries)
      ensures ReadableAs(area, entries) && (exists picks :: Represents(regions, entries, picks))
      ensures totals.usableBytes == LengthSum(entries, true) % 0x1_0000_0000_0000_0000
      ensures totals.reservedBytes == LengthSum(entries, false) % 0x1_0000_0000_0000_0000
      ensures totals.usableCount == EntryCount(entries, true) && totals.reservedCount == EntryCount(entries, false)
    {
      TilesIsLayout(area, entries);
      AcceptsIsReadable(entries, area);
      NormaliseRepresents(entries);
      TotalsAreSums(entries);
    }
    var entries :| Accepts(entries, area);
    AcceptsIsReadable(entries, area);
    TilesIsLayout(area, entries);
  }

  /** Once every byte is read, the entries read are the only ones that tile the area. */
  lemma ReadEverything(area: seq<byte>, done: seq<Entry>)
    requires Continue(area, done, |area|) == Split(area) && AllInAddressSpace(done)
    ensures forall entries :: Tiles(entries, area) <==> entries == done
    ensures Acceptable(area) <==> 1 <= |Normalise(done)| <= MAX_REGIONS
    ensures Accepts(done, area) <==> 1 <= |Normalise(done)| <= MAX_REGIONS
  {
    assert area[|area|..] == [];
    assert done + [] == done;
    SplitDecides(area);
    assert Accepts(done, area) <==> 1 <= |Normalise(done)| <= MAX_REGIONS;
  }
}
