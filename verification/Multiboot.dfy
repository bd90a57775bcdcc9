/**
 * The Multiboot memory map as a byte string: what the boot loader writes, independent of
 * how the kernel reads it. (Multiboot Specification 0.6.96, section 3.3.)
 */
module Multiboot {
  import opened Words

  const INFO_MEMORY: bv32 := 0x01
  const INFO_MEMORY_MAP: bv32 := 0x40
  const MEMORY_AVAILABLE: nat := 1
  const INFO_STRUCTURE_BYTES: nat := 52
  const SIZE_FIELD_BYTES: nat := 4
  const ENTRY_BASE_SIZE: nat := 20

  /** The fields of the information structure the kernel reads. */
  datatype Info = Info(flags: bv32, memLower: nat, memUpper: nat, mmapLength: nat, mmapAddr: nat) {
    predicate Valid() {
      memLower < U32 && memUpper < U32 && mmapLength < U32 && mmapAddr < U32
    }
  }

  /** One map entry; padding is whatever the loader appends beyond the base 20 bytes. */
  datatype Entry = Entry(base: nat, length: nat, kind: nat, padding: seq<byte>) {
    function Size(): nat {
      ENTRY_BASE_SIZE + |padding|
    }

    predicate Valid() {
      base < U64 && length < U64 && kind < U32 && SIZE_FIELD_BYTES + Size() < U32
    }
  }

  // ---- Little-endian numbers ----

  function Pow256(width: nat): nat {
    if width == 0 then 1 else 256 * Pow256(width - 1)
  }

  function ToLe(n: nat, width: nat): (bytes: seq<byte>)
    ensures |bytes| == width
  {
    if width == 0 then [] else [(n % 256) as byte] + ToLe(n / 256, width - 1)
  }

  function FromLe(bytes: seq<byte>): (n: nat)
    ensures n < Pow256(|bytes|)
  {
    if bytes == [] then 0 else bytes[0] as int + 256 * FromLe(bytes[1..])
  }

  lemma {:induction false} FromLeToLe(n: nat, width: nat)
    requires n < Pow256(width)
    ensures FromLe(ToLe(n, width)) == n
  {
    if width > 0 {
      FromLeToLe(n / 256, width - 1);
      assert ToLe(n, width)[1..] == ToLe(n / 256, width - 1);
    }
  }

  lemma {:induction false} ToLeFromLe(bytes: seq<byte>)
    ensures ToLe(FromLe(bytes), |bytes|) == bytes
  {
    if bytes != [] {
      var rest := FromLe(bytes[1..]);
      FirstDigit(bytes[0] as int, rest);
      ToLeFromLe(bytes[1..]);
      assert FromLe(bytes) == bytes[0] as int + 256 * rest;
      assert [bytes[0]] + bytes[1..] == bytes;
    }
  }

  lemma FirstDigit(digit: nat, rest: nat)
    requires digit < 256
    ensures (digit + 256 * rest) % 256 == digit && (digit + 256 * rest) / 256 == rest
  {
  }

  lemma Pow256Values()
    ensures Pow256(4) == U32 && Pow256(8) == U64
  {
    assert Pow256(4) == 256 * 256 * 256 * 256;
    assert Pow256(8) == 256 * 256 * 256 * 256 * Pow256(4);
  }

  // ---- Entries as bytes ----

  function Encode(e: Entry): seq<byte> {
    ToLe(e.Size(), 4) + ToLe(e.base, 8) + ToLe(e.length, 8) + ToLe(e.kind, 4) + e.padding
  }

  function EncodeAll(entries: seq<Entry>): seq<byte> {
    if entries == [] then [] else Encode(entries[0]) + EncodeAll(entries[1..])
  }

  ghost predicate AllValid(entries: seq<Entry>) {
    forall i | 0 <= i < |entries| :: entries[i].Valid()
  }

  /** The bytes are exactly these entries laid end to end. */
  ghost predicate Tiles(entries: seq<Entry>, bytes: seq<byte>) {
    AllValid(entries) && EncodeAll(entries) == bytes
  }

  // ---- Reading one entry from the front ----

  /** The size word is readable, at least 20, and the entry it announces fits. */
  predicate StartsWithEntry(bytes: seq<byte>) {
    && SIZE_FIELD_BYTES <= |bytes|
    && ENTRY_BASE_SIZE <= FromLe(bytes[..4])
    && SIZE_FIELD_BYTES + FromLe(bytes[..4]) < U32
    && SIZE_FIELD_BYTES + FromLe(bytes[..4]) <= |bytes|
  }

  function FirstEntry(bytes: seq<byte>): Entry
    requires StartsWithEntry(bytes)
  {
    Entry(FromLe(bytes[4..12]), FromLe(bytes[12..20]), FromLe(bytes[20..24]), bytes[24..SIZE_FIELD_BYTES + FromLe(bytes[..4])])
  }

  lemma FieldsJoin(bytes: seq<byte>, total: nat)
    requires 24 <= total <= |bytes|
    ensures bytes[..4] + bytes[4..12] + bytes[12..20] + bytes[20..24] + bytes[24..total] == bytes[..total]
  {
  }

  lemma FieldRoundTrip(bytes: seq<byte>, from: nat, to: nat)
    requires from <= to <= |bytes|
    ensures ToLe(FromLe(bytes[from..to]), to - from) == bytes[from..to]
  {
    ToLeFromLe(bytes[from..to]);
  }

  lemma FirstEntryValid(bytes: seq<byte>)
    requires StartsWithEntry(bytes)
    ensures FirstEntry(bytes).Valid() && FirstEntry(bytes).Size() == FromLe(bytes[..4])
  {
    Pow256Values();
    hide FromLe, Pow256;
  }

  lemma FirstEntryEncodes(bytes: seq<byte>)
    requires StartsWithEntry(bytes)
    ensures var e := FirstEntry(bytes);
      e.Valid() && |Encode(e)| == SIZE_FIELD_BYTES + FromLe(bytes[..4]) && bytes == Encode(e) + bytes[|Encode(e)|..]
  {
    hide ToLe, FromLe;
    FirstEntryValid(bytes);
    assert bytes[..4] == bytes[0..4];
    FieldRoundTrip(bytes, 0, 4);
    FieldRoundTrip(bytes, 4, 12);
    FieldRoundTrip(bytes, 12, 20);
    FieldRoundTrip(bytes, 20, 24);
    FieldsJoin(bytes, SIZE_FIELD_BYTES + FromLe(bytes[..4]));
  }

  lemma EncodeStartsWithEntry(e: Entry, rest: seq<byte>)
    requires e.Valid()
    ensures StartsWithEntry(Encode(e) + rest) && FirstEntry(Encode(e) + rest) == e
  {
    hide ToLe, FromLe, Pow256;
    Pow256Values();
    FromLeToLe(e.Size(), 4);
    FromLeToLe(e.base, 8);
    FromLeToLe(e.length, 8);
    FromLeToLe(e.kind, 4);
    var size, base, length, kind := ToLe(e.Size(), 4), ToLe(e.base, 8), ToLe(e.length, 8), ToLe(e.kind, 4);
    FieldsOf(size, base, length, kind, e.padding, rest);
  }

  /** Five fields laid end to end sit at their offsets. */
  lemma FieldsOf(size: seq<byte>, base: seq<byte>, length: seq<byte>, kind: seq<byte>, padding: seq<byte>, rest: seq<byte>)
    requires |size| == 4 && |base| == 8 && |length| == 8 && |kind| == 4
    ensures var bytes := size + base + length + kind + padding + rest;
      && bytes[..4] == size && bytes[4..12] == base && bytes[12..20] == length && bytes[20..24] == kind
      && bytes[24..24 + |padding|] == padding
  {
  }

  /** The entries that tile the bytes, if any do. */
  function Split(bytes: seq<byte>): Option<seq<Entry>> {
    if bytes == [] then Some([])
    else if !StartsWithEntry(bytes) then None
    else
      match Split(bytes[SIZE_FIELD_BYTES + FromLe(bytes[..4])..])
      case None => None
      case Some(rest) => Some([FirstEntry(bytes)] + rest)
  }

  /** Split recovers every entry list from its encoding, whatever the padding, and accepts nothing else. */
  lemma {:induction false} SplitIsExact(bytes: seq<byte>, entries: seq<Entry>)
    ensures Split(bytes) == Some(entries) <==> Tiles(entries, bytes)
    decreases |bytes| + |entries|
  {
    hide ToLe, FromLe;
    if bytes == [] {
      if entries != [] && entries[0].Valid() {
        assert |Encode(entries[0])| > 0;
      }
    } else if entries != [] {
      var e, rest := entries[0], entries[1..];
      assert entries == [e] + rest;
      if Tiles(entries, bytes) {
        EncodeStartsWithEntry(e, EncodeAll(rest));
        assert bytes[|Encode(e)|..] == EncodeAll(rest);
        SplitIsExact(EncodeAll(rest), rest);
      }
      if Split(bytes) == Some(entries) {
        var tail := bytes[SIZE_FIELD_BYTES + FromLe(bytes[..4])..];
        assert ([FirstEntry(bytes)] + Split(tail).value)[1..] == Split(tail).value;
        FirstEntryEncodes(bytes);
        SplitIsExact(tail, rest);
      }
    }
  }

  // ---- The layout, byte by byte ----

  /** The little-endian 32-bit word at an offset, by place weights. */
  function WordAt(bytes: seq<byte>, i: nat): nat
    requires i + 4 <= |bytes|
  {
    bytes[i] as int + 0x100 * bytes[i + 1] as int + 0x1_0000 * bytes[i + 2] as int + 0x100_0000 * bytes[i + 3] as int
  }

  /**
   * The layout of section 3.3 in offsets and place weights: a size word, not counting itself and
   * at least 20; base and length of eight bytes each; a type word; padding up to the size; then
   * the next entry.
   */
  predicate TiledBy(bytes: seq<byte>, entries: seq<Entry>)
    decreases |entries|
  {
    if entries == [] then bytes == []
    else
      var e := entries[0];
      && 24 <= |bytes| && 20 <= WordAt(bytes, 0) <= |bytes| - 4 && WordAt(bytes, 0) + 4 < 0x1_0000_0000
      && e.base == WordAt(bytes, 4) + 0x1_0000_0000 * WordAt(bytes, 8)
      && e.length == WordAt(bytes, 12) + 0x1_0000_0000 * WordAt(bytes, 16)
      && e.kind == WordAt(bytes, 20)
      && e.padding == bytes[24..4 + WordAt(bytes, 0)]
      && TiledBy(bytes[4 + WordAt(bytes, 0)..], entries[1..])
  }

  lemma FromLe4(bytes: seq<byte>)
    requires |bytes| == 4
    ensures FromLe(bytes) == WordAt(bytes, 0)
  {
    var b1, b2, b3 := bytes[1..], bytes[2..], bytes[3..];
    assert b1[1..] == b2 && b2[1..] == b3 && b3[1..] == [];
    assert FromLe(b3) == bytes[3] as int;
    assert FromLe(b2) == bytes[2] as int + 256 * FromLe(b3);
    assert FromLe(b1) == bytes[1] as int + 256 * FromLe(b2);
  }

  lemma FromLeJoin(low: seq<byte>, high: seq<byte>)
    requires |low| == 4
    ensures FromLe(low + high) == FromLe(low) + 0x1_0000_0000 * FromLe(high)
  {
    FromLeStep(low, high);
    FromLeStep(low[1..], high);
    FromLeStep(low[2..], high);
    FromLeStep(low[3..], high);
    assert low[1..][1..] == low[2..] && low[2..][1..] == low[3..] && low[3..][1..] == [];
    assert [] + high == high;
  }

  lemma FromLeStep(low: seq<byte>, high: seq<byte>)
    requires low != []
    ensures FromLe(low + high) == low[0] as int + 256 * FromLe(low[1..] + high)
    ensures FromLe(low) == low[0] as int + 256 * FromLe(low[1..])
  {
    assert (low + high)[1..] == low[1..] + high;
  }

  lemma FieldAt(bytes: seq<byte>, i: nat)
    requires i + 4 <= |bytes|
    ensures FromLe(bytes[i..i + 4]) == WordAt(bytes, i)
    ensures i + 8 <= |bytes| ==> FromLe(bytes[i..i + 8]) == WordAt(bytes, i) + 0x1_0000_0000 * WordAt(bytes, i + 4)
  {
    hide FromLe;
    FromLe4(bytes[i..i + 4]);
    if i + 8 <= |bytes| {
      FromLe4(bytes[i + 4..i + 8]);
      FromLeJoin(bytes[i..i + 4], bytes[i + 4..i + 8]);
      assert bytes[i..i + 8] == bytes[i..i + 4] + bytes[i + 4..i + 8];
    }
  }

  /** Splitting off the front reads exactly that layout. */
  lemma FirstEntryLayout(bytes: seq<byte>)
    requires 4 <= |bytes|
    ensures StartsWithEntry(bytes) <==> 20 <= WordAt(bytes, 0) <= |bytes| - 4 && WordAt(bytes, 0) + 4 < 0x1_0000_0000
    ensures StartsWithEntry(bytes) ==> FromLe(bytes[..4]) == WordAt(bytes, 0) && FirstEntry(bytes).padding == bytes[24..4 + WordAt(bytes, 0)]
    ensures StartsWithEntry(bytes) ==> FirstEntry(bytes).base == WordAt(bytes, 4) + 0x1_0000_0000 * WordAt(bytes, 8)
    ensures StartsWithEntry(bytes) ==> FirstEntry(bytes).length == WordAt(bytes, 12) + 0x1_0000_0000 * WordAt(bytes, 16)
    ensures StartsWithEntry(bytes) ==> FirstEntry(bytes).kind == WordAt(bytes, 20)
  {
    hide FromLe;
    assert bytes[..4] == bytes[0..4];
    FieldAt(bytes, 0);
    if StartsWithEntry(bytes) {
      FieldAt(bytes, 4);
      FieldAt(bytes, 12);
      FieldAt(bytes, 20);
    }
  }

  /** An entry list tiles the bytes exactly when the bytes have its layout. */
  lemma {:induction false} TilesIsLayout(bytes: seq<byte>, entries: seq<Entry>)
    ensures Tiles(entries, bytes) <==> TiledBy(bytes, entries)
    decreases |entries|
  {
    hide FromLe, WordAt, Tiles;
    SplitIsExact(bytes, entries);
    if entries != [] {
      if |bytes| >= 4 {
        FirstEntryLayout(bytes);
        if StartsWithEntry(bytes) {
          var tail := bytes[4 + FromLe(bytes[..4])..];
          TilesIsLayout(tail, entries[1..]);
          SplitIsExact(tail, entries[1..]);
          SplitFront(bytes, entries);
        }
      }
    }
  }

  lemma SplitFront(bytes: seq<byte>, entries: seq<Entry>)
    requires StartsWithEntry(bytes) && entries != []
    ensures Split(bytes) == Some(entries) <==>
      entries[0] == FirstEntry(bytes) && Split(bytes[4 + FromLe(bytes[..4])..]) == Some(entries[1..])
  {
    hide FromLe, FirstEntry;
    var rest := Split(bytes[SIZE_FIELD_BYTES + FromLe(bytes[..4])..]);
    if rest.Some? {
      assert ([FirstEntry(bytes)] + rest.value)[1..] == rest.value;
      assert entries == [entries[0]] + entries[1..];
    }
  }
}
