/**
 * The static identity page tables: paging.c, and the two-level walk the processor makes over
 * them (Intel 64 and IA-32 Architectures Software Developer's Manual, volume 3A, section 4.3,
 * "32-Bit Paging").
 */
module Paging {
  import opened Words
  import opened Bitmap

  const ENTRY_COUNT: nat := 1024
  const TABLE_COUNT: nat := 4
  const PAGE_SIZE: nat := 4096
  const TABLE_BYTES: nat := 4096
  const WORD_BYTES: nat := 4
  const DIRECTORY_SPAN: nat := 0x40_0000
  const IDENTITY_MAPPED_BYTES: nat := 0x100_0000
  const PAGE_FLAGS: nat := 3

  /** address | (present | writable) */
  function WithFlags(address: uint32): (entry: uint32)
    ensures entry as int == address / 4 * 4 + PAGE_FLAGS
  {
    FlagBits(address);
    Or(address, PAGE_FLAGS)
  }

  lemma FlagBits(address: uint32)
    ensures Or(address, PAGE_FLAGS) == address / 4 * 4 + PAGE_FLAGS
  {
    hide And, Or;
    assert Shift1(2) == 4;
    OrLowDigits(address, 2);
    var quotient := LowDigits(address, 2);
  }

  // ---- The processor's walk ----

  /** Physical memory: the word at each byte address. */
  type Memory = nat -> uint32

  predicate Present(entry: uint32) {
    entry % 2 == 1
  }

  predicate Writable(entry: uint32) {
    entry / 2 % 2 == 1
  }

  /** Bits 31:12 of an entry, or of CR3: the address of the table or page it names. */
  function EntryAddress(entry: uint32): nat {
    entry / 4096 * 4096
  }

  datatype Translation = NotPresent | Mapped(physical: nat, writable: bool)

  /** Directory index, table index and offset are bits 31:22, 21:12 and 11:0 of the address; entries are four bytes. */
  function Walk(memory: Memory, cr3: uint32, virtual: uint32): Translation {
    var pde := memory(EntryAddress(cr3) + virtual / 0x40_0000 * 4);
    if !Present(pde) then NotPresent else WalkTable(memory, pde, virtual)
  }

  function WalkTable(memory: Memory, pde: uint32, virtual: uint32): Translation {
    var pte := memory(EntryAddress(pde) + virtual / 4096 % 1024 * 4);
    if !Present(pte) then NotPresent
    else Mapped(EntryAddress(pte) + virtual % 4096, Writable(pde) && Writable(pte))
  }

  /** What paging is set up to do: the first 16 MiB map to themselves, writable. */
  function Identity(virtual: uint32): Translation {
    if virtual < 0x100_0000 then Mapped(virtual, true) else NotPresent
  }

  // ---- What the tables must hold ----

  /** Where page table t lies. */
  function TableAddress(tablesBase: nat, t: nat): (address: uint32)
    requires t < TABLE_COUNT && tablesBase + TABLE_COUNT * TABLE_BYTES <= U32
  {
    tablesBase + t * TABLE_BYTES
  }

  /** The page that entry p of table t is for. */
  function PageAddress(t: nat, p: nat): (address: uint32)
    requires t < TABLE_COUNT && p < ENTRY_COUNT
  {
    (t * ENTRY_COUNT + p) * PAGE_SIZE
  }

  ghost predicate IdentityTables(directory: seq<uint32>, tables: seq<seq<uint32>>, tablesBase: nat) {
    && |directory| == ENTRY_COUNT && |tables| == TABLE_COUNT && tablesBase + TABLE_COUNT * TABLE_BYTES <= U32
    && (forall t | 0 <= t < TABLE_COUNT :: |tables[t]| == ENTRY_COUNT)
    && (forall t | 0 <= t < TABLE_COUNT :: directory[t] == WithFlags(TableAddress(tablesBase, t)))
    && (forall t | TABLE_COUNT <= t < ENTRY_COUNT :: directory[t] == 0)
    && (forall t, p | 0 <= t < TABLE_COUNT && 0 <= p < ENTRY_COUNT :: tables[t][p] == WithFlags(PageAddress(t, p)))
  }

  /** The two arrays lie in memory at their addresses; anything may lie elsewhere. */
  ghost predicate InMemory(memory: Memory, directory: seq<uint32>, directoryBase: nat, tables: seq<seq<uint32>>, tablesBase: nat) {
    && (forall i | 0 <= i < |directory| :: memory(directoryBase + i * WORD_BYTES) == directory[i])
    && (forall t, p | 0 <= t < |tables| && 0 <= p < |tables[t]| :: memory(tablesBase + t * TABLE_BYTES + p * WORD_BYTES) == tables[t][p])
  }

  /** An entry for page or table q. */
  lemma PageEntry(q: nat, address: uint32)
    requires address == PAGE_SIZE * q
    ensures var e := WithFlags(address); Present(e) && Writable(e) && EntryAddress(e) == address
  {
    hide WithFlags;
    var e := WithFlags(address);
    Quartered(address, 1024 * q);
    Halved(e, 2048 * q + 1);
    Halved(2048 * q + 1, 1024 * q);
    PageOf(e, q, PAGE_FLAGS);
  }

  lemma Halved(x: nat, q: nat)
    requires x == 2 * q + 1
    ensures x / 2 == q && x % 2 == 1
  {
  }

  lemma Quartered(x: nat, q: nat)
    requires x == 4 * q
    ensures x / 4 == q
  {
  }

  lemma PageOf(x: nat, q: nat, r: nat)
    requires x == 4096 * q + r && r < 4096
    ensures x / 4096 == q && x % 4096 == r
  {
  }

  lemma SplitAddress(virtual: nat)
    requires virtual < IDENTITY_MAPPED_BYTES
    ensures var t, p := virtual / DIRECTORY_SPAN, virtual / PAGE_SIZE % ENTRY_COUNT;
      t < TABLE_COUNT && (t * ENTRY_COUNT + p) * PAGE_SIZE + virtual % PAGE_SIZE == virtual
  {
  }

  /**
   * Identity translation: wherever else memory holds what it likes, the walk maps every address
   * below 16 MiB to itself, present and writable, and finds no mapping for any other.
   */
  lemma IdentityTranslation(memory: Memory, directory: seq<uint32>, directoryBase: uint32, tables: seq<seq<uint32>>, tablesBase: uint32, virtual: uint32)
    requires IdentityTables(directory, tables, tablesBase) && InMemory(memory, directory, directoryBase, tables, tablesBase)
    requires directoryBase % PAGE_SIZE == 0 && tablesBase % PAGE_SIZE == 0
    ensures Walk(memory, directoryBase, virtual) == Identity(virtual)
  {
    hide WithFlags, EntryAddress, Writable, Present;
    var t, p := virtual / DIRECTORY_SPAN, virtual / PAGE_SIZE % ENTRY_COUNT;
    Aligned(directoryBase);
    assert memory(directoryBase + t * WORD_BYTES) == directory[t];
    if virtual < IDENTITY_MAPPED_BYTES {
      SplitAddress(virtual);
      PageEntry(tablesBase / PAGE_SIZE + t, TableAddress(tablesBase, t));
      PageEntry(t * ENTRY_COUNT + p, PageAddress(t, p));
      assert memory(tablesBase + t * TABLE_BYTES + p * WORD_BYTES) == tables[t][p];
    } else {
      NothingPresent();
    }
  }

  /** The loop's 32-bit arithmetic does not wrap. */
  lemma PageAddressFits(t: nat, p: nat)
    requires t < TABLE_COUNT && p < ENTRY_COUNT
    ensures Wrap32(Wrap32(t * ENTRY_COUNT + p) * PAGE_SIZE) == PageAddress(t, p)
  {
    Wrap32Small(t * ENTRY_COUNT + p);
    Wrap32Small(PageAddress(t, p));
  }

  lemma Aligned(base: uint32)
    ensures base % PAGE_SIZE == 0 ==> EntryAddress(base) == base
  {
  }

  lemma NothingPresent()
    ensures !Present(0)
  {
  }

  // ---- Why the arrays are page-aligned ----

  /** An array that starts 4k bytes into a page is read k entries too early. */
  lemma MisalignedBase(base: uint32)
    requires base % WORD_BYTES == 0
    ensures var k := base % PAGE_SIZE / WORD_BYTES;
      k < ENTRY_COUNT && EntryAddress(base) + k * WORD_BYTES == base
      && Present(WithFlags(base)) && EntryAddress(WithFlags(base)) == EntryAddress(base)
      && (base % PAGE_SIZE == 0 <==> k == 0)
  {
    hide WithFlags;
    var q, w := base / PAGE_SIZE, base / 4;
    var k := w - 1024 * q;
    assert base == 4 * w == PAGE_SIZE * q + 4 * k;
    PageOf(base, q, 4 * k);
    Quartered(4 * k, k);
    Halved(WithFlags(base), 2 * w + 1);
    PageOf(WithFlags(base), q, 4 * k + PAGE_FLAGS);
  }

  /** The last page of a table that the first directory entry names reads as an earlier page. */
  lemma LastPageOfFirstTable(memory: Memory, directory: seq<uint32>, directoryBase: uint32, tables: seq<seq<uint32>>, tablesBase: uint32, virtual: uint32)
    requires IdentityTables(directory, tables, tablesBase) && InMemory(memory, directory, directoryBase, tables, tablesBase)
    requires tablesBase % WORD_BYTES == 0 && virtual / PAGE_SIZE % ENTRY_COUNT == ENTRY_COUNT - 1 && virtual % PAGE_SIZE == 0
    ensures var walk := WalkTable(memory, directory[0], virtual);
      walk.Mapped? && walk.physical == (ENTRY_COUNT - 1 - tablesBase % PAGE_SIZE / WORD_BYTES) * PAGE_SIZE
  {
    hide WithFlags, EntryAddress, Writable, Present;
    var k := tablesBase % PAGE_SIZE / WORD_BYTES;
    MisalignedBase(tablesBase);
    var p := ENTRY_COUNT - 1 - k;
    PageEntry(p, PageAddress(0, p));
    assert memory(tablesBase + 0 * TABLE_BYTES + p * WORD_BYTES) == tables[0][p];
  }

  /**
   * Page alignment of the two arrays is exactly what makes it work: placed anywhere else, some
   * address is translated wrongly, whatever lies in the rest of memory.
   */
  lemma AlignmentDecides(memory: Memory, directory: seq<uint32>, directoryBase: uint32, tables: seq<seq<uint32>>, tablesBase: uint32)
    requires IdentityTables(directory, tables, tablesBase) && InMemory(memory, directory, directoryBase, tables, tablesBase)
    requires directoryBase % WORD_BYTES == 0 && tablesBase % WORD_BYTES == 0
    ensures directoryBase % PAGE_SIZE == 0 && tablesBase % PAGE_SIZE == 0 <==>
      forall virtual: uint32 :: Walk(memory, directoryBase, virtual) == Identity(virtual)
  {
    hide WalkTable, IdentityTables, EntryAddress;
    if directoryBase % PAGE_SIZE == 0 && tablesBase % PAGE_SIZE == 0 {
      forall virtual: uint32
        ensures Walk(memory, directoryBase, virtual) == Identity(virtual)
      {
        IdentityTranslation(memory, directory, directoryBase, tables, tablesBase, virtual);
      }
    } else {
      var virtual := MistranslatedAddress(memory, directory, directoryBase, tables, tablesBase);
      assert Walk(memory, directoryBase, virtual) != Identity(virtual);
    }
  }

  /** The last page of the 4 MiB that reaches directory entry 0. */
  lemma MistranslatedAddress(memory: Memory, directory: seq<uint32>, directoryBase: uint32, tables: seq<seq<uint32>>, tablesBase: uint32)
    returns (virtual: uint32)
    requires IdentityTables(directory, tables, tablesBase) && InMemory(memory, directory, directoryBase, tables, tablesBase)
    requires directoryBase % WORD_BYTES == 0 && tablesBase % WORD_BYTES == 0
    requires directoryBase % PAGE_SIZE != 0 || tablesBase % PAGE_SIZE != 0
    ensures Walk(memory, directoryBase, virtual) != Identity(virtual)
  {
    hide WithFlags, EntryAddress, Writable, Present, WalkTable;
    var k := directoryBase % PAGE_SIZE / WORD_BYTES;
    MisalignedBase(directoryBase);
    MisalignedBase(tablesBase);
    virtual := LastPageAt(k);
    LastPageOfFirstTable(memory, directory, directoryBase, tables, tablesBase, virtual);
    assert memory(directoryBase + 0 * WORD_BYTES) == directory[0];
  }

  lemma LastPageAt(k: nat) returns (virtual: uint32)
    requires k < ENTRY_COUNT
    ensures virtual as int == k * DIRECTORY_SPAN + (ENTRY_COUNT - 1) * PAGE_SIZE
    ensures virtual / DIRECTORY_SPAN == k && virtual / PAGE_SIZE % ENTRY_COUNT == ENTRY_COUNT - 1 && virtual % PAGE_SIZE == 0
  {
    virtual := k * DIRECTORY_SPAN + (ENTRY_COUNT - 1) * PAGE_SIZE;
    assert virtual as int == PAGE_SIZE * (k * ENTRY_COUNT + (ENTRY_COUNT - 1));
  }

  class PageTables {
    const directory: array<uint32>
    const tables: array2<uint32>
    const directoryBase: uint32
    const tablesBase: uint32

    constructor (directoryBase: uint32, tablesBase: uint32)
      requires directoryBase % PAGE_SIZE == 0
      requires tablesBase % PAGE_SIZE == 0 && tablesBase + TABLE_COUNT * TABLE_BYTES <= U32
      ensures Shaped() && this.directoryBase == directoryBase && this.tablesBase == tablesBase && fresh(directory) && fresh(tables)
    {
      directory := new uint32[ENTRY_COUNT](_ => 0);
      tables := new uint32[TABLE_COUNT, ENTRY_COUNT]((_, _) => 0);
      this.directoryBase, this.tablesBase := directoryBase, tablesBase;
    }

    ghost predicate Shaped() {
      && directory.Length == ENTRY_COUNT
      && tables.Length0 == TABLE_COUNT && tables.Length1 == ENTRY_COUNT
      && directoryBase % PAGE_SIZE == 0 && tablesBase % PAGE_SIZE == 0 && tablesBase + TABLE_COUNT * TABLE_BYTES <= U32
    }

    function Directory(): seq<uint32>
      reads directory
    {
      directory[..]
    }

    function Tables(): seq<seq<uint32>>
      reads tables
    {
      seq(tables.Length0, t requires 0 <= t < tables.Length0 reads tables =>
        seq(tables.Length1, p requires 0 <= p < tables.Length1 reads tables => tables[t, p]))
    }

    /** i386_paging_clear_tables */
    method ClearTables()
      requires Shaped()
      modifies directory, tables
      ensures forall t | 0 <= t < ENTRY_COUNT :: directory[t] == 0
      ensures forall t, p | 0 <= t < TABLE_COUNT && 0 <= p < ENTRY_COUNT :: tables[t, p] == 0
    {
      for i := 0 to ENTRY_COUNT
        invariant forall t | 0 <= t < i :: directory[t] == 0
      {
        directory[i] := 0;
      }
      for table := 0 to TABLE_COUNT
        invariant forall t | 0 <= t < ENTRY_COUNT :: directory[t] == 0
        invariant forall t, p | 0 <= t < table && 0 <= p < ENTRY_COUNT :: tables[t, p] == 0
      {
        for page := 0 to ENTRY_COUNT
          invariant forall t | 0 <= t < ENTRY_COUNT :: directory[t] == 0
          invariant forall t, p | 0 <= t < table && 0 <= p < ENTRY_COUNT :: tables[t, p] == 0
          invariant forall p | 0 <= p < page :: tables[table, p] == 0
        {
          tables[table, page] := 0;
        }
      }
    }

    /** i386_paging_build_identity_map */
    method BuildIdentityMap()
      requires Shaped()
      requires forall t | 0 <= t < ENTRY_COUNT :: directory[t] == 0
      modifies directory, tables
      ensures IdentityTables(Directory(), Tables(), tablesBase)
    {
      hide WithFlags, PageAddress, TableAddress, Wrap32;
      for table := 0 to TABLE_COUNT
        invariant forall t | 0 <= t < table :: directory[t] == WithFlags(TableAddress(tablesBase, t))
        invariant forall t | table <= t < ENTRY_COUNT :: directory[t] == 0
        invariant forall t, p | 0 <= t < table && 0 <= p < ENTRY_COUNT :: tables[t, p] == WithFlags(PageAddress(t, p))
      {
        for page := 0 to ENTRY_COUNT
          invariant forall t | 0 <= t < table :: directory[t] == WithFlags(TableAddress(tablesBase, t))
          invariant forall t | table <= t < ENTRY_COUNT :: directory[t] == 0
          invariant forall t, p | 0 <= t < table && 0 <= p < ENTRY_COUNT :: tables[t, p] == WithFlags(PageAddress(t, p))
          invariant forall p | 0 <= p < page :: tables[table, p] == WithFlags(PageAddress(table, p))
        {
          var pageIndex := Wrap32(table * ENTRY_COUNT + page);
          var physicalAddress := Wrap32(pageIndex * PAGE_SIZE);
          PageAddressFits(table, page);
          tables[table, page] := WithFlags(physicalAddress);
        }
        directory[table] := WithFlags(TableAddress(tablesBase, table));
      }
    }

    /** i386_paging_initialize_identity up to loading the control registers. */
    method InitializeIdentity()
      requires Shaped()
      modifies directory, tables
      ensures forall memory: Memory, virtual: uint32 | InMemory(memory, Directory(), directoryBase, Tables(), tablesBase) ::
        Walk(memory, directoryBase, virtual) == Identity(virtual)
    {
      hide IdentityTables, InMemory, Walk, Identity;
      ClearTables();
      BuildIdentityMap();
      forall memory: Memory, virtual: uint32 | InMemory(memory, Directory(), directoryBase, Tables(), tablesBase)
        ensures Walk(memory, directoryBase, virtual) == Identity(virtual)
      {
        IdentityTranslation(memory, Directory(), directoryBase, Tables(), tablesBase, virtual);
      }
    }
  }
}
