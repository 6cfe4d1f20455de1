/** Address spaces and page mapping (vm.c) over physical memory and the frame allocator. */
module VirtualMemory {
  import opened Memory
  import opened Allocator
  import opened Paging
  import opened Words

  class AddressSpace {
    /** Physical address of the top-level table. */
    var root: nat

    constructor (root: nat)
      ensures this.root == root
    {
      this.root := root;
    }
  }

  /** The page a virtual address falls in; bits 48 and above take no part in translation. */
  function PageOf(virtualAddress: nat): nat {
    virtualAddress / 4096 % PAGE_COUNT
  }

  /** The four nine-bit indexes of a virtual address. */
  function Indexes(virtualAddress: nat): seq<nat> {
    [virtualAddress / 0x80_0000_0000 % 512,
     virtualAddress / 0x4000_0000 % 512,
     virtualAddress / 0x20_0000 % 512,
     virtualAddress / 4096 % 512]
  }

  lemma By27(e: nat, q: nat, r: nat)
    requires e == 0x800_0000 * q + r && r < 0x800_0000
    ensures e / 0x800_0000 == q
  {
  }

  lemma By18(e: nat, q: nat, r: nat)
    requires e == 0x4_0000 * q + r && r < 0x4_0000
    ensures e / 0x4_0000 == q
  {
  }

  lemma TopIndex(address: nat)
    ensures address / 0x80_0000_0000 % 512 == Index(PageOf(address), 0)
  {
    var a, r := address / 0x80_0000_0000, address % 0x80_0000_0000;
    var number := address / 4096;
    By4096(address, 0x800_0000 * a + r / 4096, r % 4096);
    By27(number, a, r / 4096);
    var h, p := number / PAGE_COUNT, number % PAGE_COUNT;
    By27(number, 512 * h + p / 0x800_0000, p % 0x800_0000);
    By512(a, h, p / 0x800_0000);
  }

  lemma DirectoryPointerIndex(address: nat)
    ensures address / 0x4000_0000 % 512 == Index(PageOf(address), 1)
  {
    var a, r := address / 0x4000_0000, address % 0x4000_0000;
    var number := address / 4096;
    By4096(address, 0x4_0000 * a + r / 4096, r % 4096);
    By18(number, a, r / 4096);
    var h, p := number / PAGE_COUNT, number % PAGE_COUNT;
    By18(number, 0x4_0000 * h + p / 0x4_0000, p % 0x4_0000);
    By512(a, 512 * h + p / 0x4_0000 / 512, p / 0x4_0000 % 512);
  }

  lemma DirectoryIndex(address: nat)
    ensures address / 0x20_0000 % 512 == Index(PageOf(address), 2)
  {
    var a, r := address / 0x20_0000, address % 0x20_0000;
    var number := address / 4096;
    By4096(address, 512 * a + r / 4096, r % 4096);
    By512(number, a, r / 4096);
    var h, p := number / PAGE_COUNT, number % PAGE_COUNT;
    By512(number, 0x800_0000 * h + p / 512, p % 512);
    By512(a, 0x4_0000 * h + p / 512 / 512, p / 512 % 512);
  }

  lemma TableIndex(address: nat)
    ensures address / 4096 % 512 == Index(PageOf(address), 3)
  {
    var number := address / 4096;
    var h, p := number / PAGE_COUNT, number % PAGE_COUNT;
    By512(number, 0x800_0000 * h + p / 512, p % 512);
  }

  lemma IndexesArePageIndexes(virtualAddress: nat, level: nat)
    requires level <= 3
    ensures Indexes(virtualAddress)[level] == Index(PageOf(virtualAddress), level)
  {
    TopIndex(virtualAddress);
    DirectoryPointerIndex(virtualAddress);
    DirectoryIndex(virtualAddress);
    TableIndex(virtualAddress);
  }

  class Paged {
    const ram: Ram
    const allocator: FrameAllocator

    /** The place of every frame in use as a page table. */
    ghost var slots: Slots

    constructor (ram: Ram, allocator: FrameAllocator)
      requires ram.Valid() && allocator.Valid() && ram.bytes != allocator.bitmap
      ensures Valid() && this.ram == ram && this.allocator == allocator && slots == map[]
    {
      this.ram := ram;
      this.allocator := allocator;
      slots := map[];
    }

    ghost predicate Valid()
      reads this, allocator, allocator.bitmap, ram.bytes
    {
      && ram.Valid() && allocator.Valid() && ram.bytes != allocator.bitmap
      && Forest(ram.Tables(), slots)
      && forall f :: f in slots ==> FIRST_FRAME <= f < FRAME_COUNT && f !in allocator.Free()
    }

    /** The top-level table of an address space. */
    ghost predicate Owns(space: AddressSpace)
      reads this, space
    {
      space.root % 4096 == 0 && IsRoot(slots, space.root / 4096)
    }

    /** No frame is left for allocation. */
    ghost predicate Exhausted()
      requires allocator.Valid()
      reads allocator, allocator.bitmap
    {
      forall f :: f in allocator.Free() ==> f < FIRST_FRAME
    }

    /** Takes a frame and clears it; zero when memory is exhausted. */
    method NewTable() returns (address: nat)
      requires Valid()
      modifies allocator`freePages, allocator.bitmap, ram.bytes
      ensures Valid()
      ensures address == 0 ==> Exhausted()
      ensures address == 0 ==> allocator.Free() == old(allocator.Free()) && ram.Tables() == old(ram.Tables())
      ensures address == 0 ==> forall f :: 0 <= f < FRAME_COUNT ==> ram.Page(f) == old(ram.Page(f))
      ensures address != 0 ==>
        && address % 4096 == 0 && FIRST_FRAME <= address / 4096 < FRAME_COUNT
        && address / 4096 in old(allocator.Free())
        && allocator.Free() == old(allocator.Free()) - {address / 4096}
        && ram.Tables() == old(ram.Tables())[address / 4096 := EmptyTable()]
        && forall f :: 0 <= f < FRAME_COUNT && f != address / 4096 ==> ram.Page(f) == old(ram.Page(f))
    {
      address := allocator.AllocFrame();
      if address == 0 {
        return;
      }
      ghost var t := ram.Tables();
      ClearTable(address / 4096);
      OtherFramesKeepForest(t, ram.Tables(), slots);
    }

    /** Clears the 512 entries of a frame. */
    method ClearTable(frame: nat)
      requires ram.Valid() && frame < FRAME_COUNT
      modifies ram.bytes
      ensures ram.Tables() == old(ram.Tables())[frame := EmptyTable()]
      ensures forall f :: 0 <= f < FRAME_COUNT && f != frame ==> ram.Page(f) == old(ram.Page(f))
    {
      ghost var t := ram.Tables();
      for i: nat := 0 to 512
        invariant |ram.Tables()| == |t|
        invariant forall f: nat :: f < |t| && f != frame ==> ram.Tables()[f] == t[f]
        invariant forall k :: 0 <= k < i ==> ram.Tables()[frame][k] == 0
        invariant forall f :: 0 <= f < FRAME_COUNT && f != frame ==> ram.Page(f) == old(ram.Page(f))
      {
        ram.StoreEntry(frame, i, 0);
      }
      assert ram.Tables()[frame] == EmptyTable();
    }

    /** Frames that hold neither a table nor nothing keep their bytes. */
    twostate predicate DataKept()
      requires old(Valid()) && Valid()
      reads this, allocator, allocator.bitmap, ram.bytes
    {
      forall f :: 0 <= f < FRAME_COUNT && f !in old(allocator.Free()) && f !in old(slots) ==>
        ram.Page(f) == old(ram.Page(f))
    }

    /** Fills the page directory of the low gigabyte. */
    method FillLowDirectory(frame: nat)
      requires ram.Valid() && frame < FRAME_COUNT
      modifies ram.bytes
      ensures ram.Tables() == old(ram.Tables())[frame := LowDirectoryTable()]
      ensures forall f :: 0 <= f < FRAME_COUNT && f != frame ==> ram.Page(f) == old(ram.Page(f))
    {
      ghost var t := ram.Tables();
      for i: nat := 0 to 512
        invariant |ram.Tables()| == |t|
        invariant forall f: nat :: f < |t| && f != frame ==> ram.Tables()[f] == t[f]
        invariant forall k: nat :: k < i ==> ram.Tables()[frame][k] == IdentityEntry(k)
        invariant forall f :: 0 <= f < FRAME_COUNT && f != frame ==> ram.Page(f) == old(ram.Page(f))
      {
        ram.StoreEntry(frame, i, i * 0x20_0000 + 0x83);
      }
      assert ram.Tables()[frame] == LowDirectoryTable();
    }

    /** Links the three tables of a new address space. */
    method LinkSpace(root: nat, pdpt: nat, directory: nat)
      requires ram.Valid() && root < FRAME_COUNT && pdpt < FRAME_COUNT && directory < FRAME_COUNT
      requires root != pdpt && pdpt != directory && root != directory
      requires ram.Tables()[root] == EmptyTable() && ram.Tables()[pdpt] == EmptyTable()
      modifies ram.bytes
      ensures ram.Tables() == WithSpace(old(ram.Tables()), root, pdpt, directory)
      ensures forall f :: 0 <= f < FRAME_COUNT && f != root && f != pdpt && f != directory ==>
        ram.Page(f) == old(ram.Page(f))
    {
      ram.StoreEntry(root, 0, 4096 * pdpt + 7);
      ram.StoreEntry(pdpt, 0, 4096 * directory + 3);
      FillLowDirectory(directory);
      assert ram.Tables() == WithSpace(old(ram.Tables()), root, pdpt, directory);
    }

    /** The three tables, or zeros when memory runs out. */
    method ThreeTables() returns (root: nat, pdpt: nat, directory: nat)
      requires Valid()
      modifies allocator`freePages, allocator.bitmap, ram.bytes
      ensures Valid() && allocator.Free() <= old(allocator.Free()) && DataKept()
      ensures forall f: nat :: f in slots && f < FRAME_COUNT ==> ram.Tables()[f] == old(ram.Tables())[f]
      ensures root != 0 && pdpt != 0 && directory != 0 ==>
        && root % 4096 == pdpt % 4096 == directory % 4096 == 0
        && var r, p, d := root / 4096, pdpt / 4096, directory / 4096;
           && {r, p, d} <= old(allocator.Free()) && {r, p, d} !! allocator.Free()
           && FIRST_FRAME <= r < FRAME_COUNT && FIRST_FRAME <= p < FRAME_COUNT && FIRST_FRAME <= d < FRAME_COUNT
           && r != p && p != d && r != d
           && ram.Tables()[r] == EmptyTable() && ram.Tables()[p] == EmptyTable()
    {
      hide allocator.Free;
      hide Walk;
      hide Forest;
      hide Ram.Page;
      pdpt, directory := 0, 0;
      root := NewTable();
      if root == 0 {
        return;
      }
      pdpt := NewTable();
      directory := NewTable();
    }

    /** A new address space: the low gigabyte mapped to itself for the supervisor, nothing else;
        every other address space is as before. */
    method AddressSpaceCreate() returns (space: AddressSpace?)
      requires Valid()
      modifies this`slots, allocator, allocator.bitmap, ram.bytes
      ensures Valid() && DataKept() && allocator.Free() <= old(allocator.Free())
      ensures SameWalks(old(ram.Tables()), ram.Tables(), old(slots))
      ensures space == null ==> slots == old(slots)
      ensures space != null ==> fresh(space) && Owns(space) && space.root / 4096 !in old(slots)
      ensures forall f :: f in old(slots) ==> f in slots && slots[f] == old(slots[f])
      ensures space != null ==>
        forall page: nat :: page < PAGE_COUNT ==>
          Walk(ram.Tables(), space.root / 4096, page) == if page < LOW_PAGES then Page(page, false, true) else Fault
    {
      hide allocator.Free;
      hide Walk;
      hide Ram.Page;
      hide Forest;
      ghost var t := ram.Tables();
      var memory := allocator.Kmalloc(8);
      if memory == 0 {
        OtherFramesKeepWalks(t, ram.Tables(), slots);
        return null;
      }
      var root, pdpt, directory := ThreeTables();
      ghost var t1 := ram.Tables();
      OtherFramesKeepWalks(t, t1, slots);
      if root == 0 || pdpt == 0 || directory == 0 {
        return null;
      }
      LinkSpace(root / 4096, pdpt / 4096, directory / 4096);
      SpaceFacts(t1, slots, root / 4096, pdpt / 4096, directory / 4096);
      slots := SpaceSlots(slots, root / 4096, pdpt / 4096, directory / 4096);
      space := new AddressSpace(root);
    }

    /** Old tables keep their places; new ones come from free frames and sit below the top
        level of `root`'s tree. */
    ghost predicate Extends(before: Slots, free: set<nat>, root: nat)
      reads this
    {
      && (forall f :: f in before ==> f in slots && slots[f] == before[f])
      && (forall f :: f in slots && f !in before ==> f in free && slots[f].level > 0 && slots[f].root == root)
    }

    /** Links a new, empty table from an absent entry. */
    method LinkTable(table: nat, i: nat, ghost page: nat) returns (ok: bool, next: nat)
      requires Valid() && page < PAGE_COUNT && i < 512
      requires table in slots && slots[table].level < 3 && !IsLowDirectory(slots[table])
      requires slots[table].prefix == Prefix(page, slots[table].level) && i == Index(page, slots[table].level)
      requires !Present(ram.Tables()[table][i])
      modifies this`slots, allocator`freePages, allocator.bitmap, ram.bytes
      ensures Valid() && DataKept() && allocator.Free() <= old(allocator.Free())
      ensures SameWalks(old(ram.Tables()), ram.Tables(), old(slots))
      ensures !ok ==> Exhausted() && slots == old(slots)
      ensures ok ==> next !in old(slots) && next in old(allocator.Free())
      ensures ok ==> slots == old(slots)[next := ChildSlot(old(slots), table, i)]
      ensures ok ==> ChildSlot(old(slots), table, i).prefix == Prefix(page, slots[table].level + 1)
      ensures ok ==> ram.Tables()[table][i] / 4096 == next
    {
      hide allocator.Free;
      hide Walk;
      hide Forest;
      hide SameWalks;
      hide Ram.Page;
      ghost var t := ram.Tables();
      var address := NewTable();
      if address == 0 {
        OtherFramesKeepWalks(t, ram.Tables(), slots);
        return false, 0;
      }
      next := address / 4096;
      assert Linkable(t, slots, table, i, next);
      LinkFacts(t, slots, table, i, next, page);
      ram.StoreEntry(table, i, 4096 * next + 7);
      slots := slots[next := ChildSlot(slots, table, i)];
      ok := true;
    }

    /** One level of the walk in `MapPage`: follows entry `i` of a table, first linking a new
        table when the entry is absent. `next` is a frame number. */
    method NextTable(table: nat, i: nat, ghost page: nat) returns (ok: bool, next: nat)
      requires Valid() && page < PAGE_COUNT && i < 512
      requires table in slots && slots[table].level < 3
      requires slots[table].prefix == Prefix(page, slots[table].level) && i == Index(page, slots[table].level)
      modifies this`slots, allocator`freePages, allocator.bitmap, ram.bytes
      ensures Valid() && DataKept() && Extends(old(slots), old(allocator.Free()), old(slots)[table].root)
      ensures allocator.Free() <= old(allocator.Free())
      ensures SameWalks(old(ram.Tables()), ram.Tables(), old(slots))
      ensures !ok ==> Exhausted() && slots == old(slots)
      ensures old(Present(ram.Tables()[table][i])) ==>
        ok && ram.Tables() == old(ram.Tables()) && slots == old(slots) && allocator.Free() == old(allocator.Free())
      ensures ok && !IsLowDirectory(slots[table]) ==>
        && next in slots && slots[next].level == slots[table].level + 1 && slots[next].root == slots[table].root
        && slots[next].prefix == Prefix(page, slots[next].level)
      ensures IsLowDirectory(slots[table]) ==> next == 512 * i && old(Present(ram.Tables()[table][i]))
    {
      hide allocator.Free;
      hide Walk;
      hide Forest;
      hide Ram.Page;
      EntryFacts(ram.Tables(), slots, table, page);
      var entry := ram.LoadEntry(table, i);
      if !Present(entry) {
        ok, next := LinkTable(table, i, page);
      } else {
        ok, next := true, entry / 4096;
        OtherFramesKeepWalks(ram.Tables(), ram.Tables(), slots);
      }
    }

    /** The three upper levels of `MapPage`. Above the low gigabyte it ends at the level-3 table
        on the path of the page; below, it takes the large page of the low directory for a table. */
    method WalkDown(space: AddressSpace, virtualAddress: nat) returns (ok: bool, table: nat)
      requires Valid() && Owns(space)
      modifies this`slots, allocator`freePages, allocator.bitmap, ram.bytes
      ensures Owns(space)
      ensures Valid() && DataKept() && Extends(old(slots), old(allocator.Free()), space.root / 4096)
      ensures allocator.Free() <= old(allocator.Free())
      ensures SameWalks(old(ram.Tables()), ram.Tables(), old(slots))
      ensures !ok ==> Exhausted()
      ensures var page := PageOf(virtualAddress);
        if page < LOW_PAGES then
          && ok && table == 512 * Index(page, 2)
          && ram.Tables() == old(ram.Tables()) && slots == old(slots) && allocator.Free() == old(allocator.Free())
        else
          ok ==> OnPath(table, 3, space.root / 4096, page)
    {
      hide allocator.Free;
      hide Walk;
      hide Ram.Page;
      var indexes := Indexes(virtualAddress);
      ghost var page, root := PageOf(virtualAddress), space.root / 4096;
      IndexesArePageIndexes(virtualAddress, 0);
      IndexesArePageIndexes(virtualAddress, 1);
      IndexesArePageIndexes(virtualAddress, 2);
      LowIndexesFacts(page);
      table := space.root / 4096;
      ok := true;
      assert LinkedOk(ram.Tables(), slots, root);
      OtherFramesKeepWalks(ram.Tables(), ram.Tables(), slots);
      for level := 0 to 3
        invariant ok && Valid() && DataKept() && Extends(old(slots), old(allocator.Free()), root) && IsRoot(slots, root)
        invariant allocator.Free() <= old(allocator.Free())
        invariant SameWalks(old(ram.Tables()), ram.Tables(), old(slots))
        invariant !(page < LOW_PAGES && level == 3) ==> OnPath(table, level, root, page)
        invariant page < LOW_PAGES && level == 3 ==> table == 512 * Index(page, 2)
        invariant page < LOW_PAGES ==>
          ram.Tables() == old(ram.Tables()) && slots == old(slots) && allocator.Free() == old(allocator.Free())
      {
        LowPathPresent(ram.Tables(), slots, table, page);
        ok, table := NextTable(table, indexes[level], page);
        if !ok {
          return;
        }
      }
    }

    ghost predicate OnPath(table: nat, level: nat, root: nat, page: nat)
      requires level <= 3
      reads this
    {
      table in slots && slots[table].level == level && slots[table].root == root
      && slots[table].prefix == Prefix(page, level)
    }

    /** The final store of `MapPage`; the shape of the tables survives it when it goes to level 3. */
    method WriteLeaf(table: nat, i: nat, entry: nat)
      requires Valid() && table < FRAME_COUNT && i < 512 && entry < WORD
      modifies ram.bytes
      ensures ram.Tables() == WithLeaf(old(ram.Tables()), table, i, entry)
      ensures table in slots && slots[table].level == 3 ==> Valid()
      ensures forall f :: 0 <= f < FRAME_COUNT && f != table ==> ram.Page(f) == old(ram.Page(f))
    {
      ghost var t := ram.Tables();
      ram.StoreEntry(table, i, entry);
      if table in slots && slots[table].level == 3 {
        LeafKeepsForest(t, slots, table, i, entry);
      }
    }

    /** Maps one page. At or above one gigabyte this is an update of one translation, or no
        change at all when memory runs out; below, it overwrites a word of ordinary memory. */
    method MapPage(space: AddressSpace?, virtualAddress: nat, physicalAddress: nat, flags: nat) returns (ok: bool)
      requires Valid() && (space != null ==> Owns(space))
      requires physicalAddress < WORD && flags < WORD
      modifies this`slots, allocator`freePages, allocator.bitmap, ram.bytes
      ensures space == null || virtualAddress % 4096 != 0 || physicalAddress % 4096 != 0 ==>
        !ok && ram.Tables() == old(ram.Tables()) && slots == old(slots) && allocator.Free() == old(allocator.Free())
      ensures space != null && virtualAddress % 4096 == 0 && physicalAddress % 4096 == 0 ==>
        var page, frame, low := PageOf(virtualAddress), EntryFrame(physicalAddress, flags), flags % 4096;
        if page < LOW_PAGES then
          && ok && slots == old(slots) && allocator.Free() == old(allocator.Free())
          && ram.Tables() == WithLeaf(old(ram.Tables()), 512 * Index(page, 2), Index(page, 3), LeafEntry(frame, low))
        else
          && Valid() && DataKept() && Owns(space)
          && Extends(old(slots), old(allocator.Free()), space.root / 4096)
          && allocator.Free() <= old(allocator.Free())
          && (!ok ==> Exhausted() && SameWalks(old(ram.Tables()), ram.Tables(), old(slots)))
          && (ok ==> OneTranslation(old(ram.Tables()), ram.Tables(), old(slots),
                                    space.root / 4096, page, Requested(frame, low)))
    {
      hide Walk;
      hide Forest;
      hide Ram.Page;
      if space == null || virtualAddress % 4096 != 0 || physicalAddress % 4096 != 0 {
        return false;
      }
      ghost var page, frame := PageOf(virtualAddress), EntryFrame(physicalAddress, flags);
      var table;
      ok, table := WalkDown(space, virtualAddress);
      if !ok {
        return;
      }
      IndexesArePageIndexes(virtualAddress, 3);
      StoredEntry(physicalAddress, flags);
      StoredEntryFits(physicalAddress, flags);
      hide Or;
      ghost var t := ram.Tables();
      WriteLeaf(table, Indexes(virtualAddress)[3], Or(Or(physicalAddress, flags), 1));
      if LOW_PAGES <= page {
        MappedPage(old(ram.Tables()), t, old(slots), slots, space.root / 4096, page, table, frame, flags % 4096);
      }
    }
  }

  /** The walk down changes no translation and the store changes one. */
  lemma MappedPage(t0: Tables, t: Tables, before: Slots, slots: Slots, root: nat, page: nat, table: nat, frame: nat,
      flags: nat)
    requires Forest(t, slots) && IsRoot(slots, root) && flags < 4096 && LOW_PAGES <= page < PAGE_COUNT
    requires SameWalks(t0, t, before)
    requires forall f :: f in before ==> f in slots && slots[f] == before[f]
    requires table in slots && slots[table].level == 3 && slots[table].root == root
    requires slots[table].prefix == Prefix(page, 3) && table < |t|
    ensures OneTranslation(t0, WithLeaf(t, table, Index(page, 3), LeafEntry(frame, flags)), before,
                           root, page, Requested(frame, flags))
  {
    assert LinkedOk(t, slots, root);
    LeafSetsTranslation(t, slots, root, page, table, frame, flags);
  }

  /** The frame number in `physicalAddress | flags`; flags beyond the low twelve bits get into it. */
  function EntryFrame(physicalAddress: nat, flags: nat): nat {
    Or(physicalAddress / 4096, flags / 4096)
  }

  lemma StoredEntry(physicalAddress: nat, flags: nat)
    requires physicalAddress % 4096 == 0
    ensures Or(Or(physicalAddress, flags), 1) == LeafEntry(EntryFrame(physicalAddress, flags), flags % 4096)
  {
    hide Or;
    var frame := physicalAddress / 4096;
    var e := 4096 * EntryFrame(physicalAddress, flags) + flags % 4096;
    OrBy4096(frame, flags);
    OrOne(e);
    By2(e, 2048 * EntryFrame(physicalAddress, flags) + flags % 4096 / 2, flags % 4096 % 2);
  }

  /** The entry the last store writes has the binary digits of the address, the flags and the present
      bit, whatever the flags are. */
  lemma StoredBits(physicalAddress: nat, flags: nat, k: nat)
    requires physicalAddress % 4096 == 0
    ensures Bit(LeafEntry(EntryFrame(physicalAddress, flags), flags % 4096), k)
      <==> Bit(physicalAddress, k) || Bit(flags, k) || k == 0
  {
    StoredEntry(physicalAddress, flags);
    OrBits(Or(physicalAddress, flags), 1, k);
    OrBits(physicalAddress, flags, k);
    if k > 0 {
      NoBits(k - 1);
    }
  }

  lemma WordBits()
    ensures Pow2(64) == WORD
  {
    EightMore(0);
    EightMore(8);
    EightMore(16);
    EightMore(24);
    EightMore(32);
    EightMore(40);
    EightMore(48);
    EightMore(56);
  }

  lemma EightMore(n: nat)
    ensures Pow2(n + 8) == 256 * Pow2(n)
  {
    assert Pow2(n + 8) == 4 * Pow2(n + 6) && Pow2(n + 6) == 4 * Pow2(n + 4);
    assert Pow2(n + 4) == 4 * Pow2(n + 2) && Pow2(n + 2) == 4 * Pow2(n);
  }

  lemma StoredEntryFits(physicalAddress: nat, flags: nat)
    requires physicalAddress < WORD && flags < WORD
    ensures Or(Or(physicalAddress, flags), 1) < WORD
  {
    hide Or;
    hide Pow2;
    WordBits();
    OrFits(physicalAddress, flags, 64);
    OrFits(Or(physicalAddress, flags), 1, 64);
  }

  lemma LowPathPresent(t: Tables, slots: Slots, table: nat, page: nat)
    requires Forest(t, slots) && table in slots && table < |t| && slots[table].level < 3 && page < PAGE_COUNT
    requires slots[table].prefix == Prefix(page, slots[table].level)
    ensures page < LOW_PAGES ==> Present(t[table][Index(page, slots[table].level)])
    ensures page < LOW_PAGES && slots[table].level == 2 ==> IsLowDirectory(slots[table])
    ensures LOW_PAGES <= page ==> !IsLowDirectory(slots[table])
  {
    var i := Index(page, slots[table].level);
    assert EntryOk(t, slots, table, i);
    LowIndexesFacts(page);
    if page < LOW_PAGES {
      LowIndexes(page);
      if slots[table].level == 2 {
        IdentityEntryParts(i);
      }
    }
  }

  lemma LowIndexesFacts(page: nat)
    requires page < PAGE_COUNT
    ensures Prefix(page, 0) == 0 && Index(page, 0) < 512
    ensures page < LOW_PAGES <==> Prefix(page, 2) == 0
  {
  }

  /** What the walk finds in a present entry: the next table, or a large page of the low directory. */
  lemma EntryFacts(t: Tables, slots: Slots, table: nat, page: nat)
    requires Forest(t, slots) && table in slots && table < |t| && slots[table].level < 3
    requires slots[table].prefix == Prefix(page, slots[table].level)
    ensures var i := Index(page, slots[table].level);
      var entry := t[table][i];
      if IsLowDirectory(slots[table]) then
        Present(entry) && entry / 4096 == 512 * i
      else
        Present(entry) ==>
          && entry / 4096 in slots && slots[entry / 4096].level == slots[table].level + 1
          && slots[entry / 4096].root == slots[table].root
          && slots[entry / 4096].prefix == Prefix(page, slots[table].level + 1)
  {
    var i := Index(page, slots[table].level);
    var entry := t[table][i];
    assert EntryOk(t, slots, table, i);
    if IsLowDirectory(slots[table]) {
      IdentityEntryParts(i);
      TargetPart(512 * i, 0x83);
    } else if Present(entry) {
      LinkEntryParts(slots[table], i, Target(entry));
      ChildOnPath(t, slots, table, page);
      LinkEntryFrame(slots[table], i, Target(entry));
    }
  }

  lemma LinkEntryFrame(slot: Slot, i: nat, child: nat)
    ensures LinkEntry(slot, i, child) / 4096 == child
  {
    By4096(LinkEntry(slot, i, child), child, LinkEntry(slot, i, child) - 4096 * child);
  }

  lemma LinkFacts(t: Tables, slots: Slots, table: nat, i: nat, child: nat, page: nat)
    requires Forest(t, slots) && Linkable(t, slots, table, i, child)
    requires slots[table].prefix == Prefix(page, slots[table].level) && i == Index(page, slots[table].level)
    ensures var t' := WithTable(t, table, i, child);
      && Forest(t', slots[child := ChildSlot(slots, table, i)])
      && SameWalks(t, t', slots)
      && ChildSlot(slots, table, i).prefix == Prefix(page, slots[table].level + 1)
      && t'[table][i] / 4096 == child
  {
    PrefixSplit(page, slots[table].level);
    assert EntryOk(t, slots, table, i);
    LinkKeepsForest(t, slots, table, i, child);
    forall r: nat, q: nat | IsRoot(slots, r) && r < |t| && q < PAGE_COUNT {
      LinkKeepsWalks(t, slots, table, i, child, r, q);
    }
    TargetPart(child, 7);
  }

  lemma SpaceFacts(t: Tables, slots: Slots, root: nat, pdpt: nat, directory: nat)
    requires Forest(t, slots) && Unused(t, slots, root, pdpt, directory)
    ensures var t' := WithSpace(t, root, pdpt, directory);
      && Forest(t', SpaceSlots(slots, root, pdpt, directory))
      && SameWalks(t, t', slots)
      && forall page: nat :: page < PAGE_COUNT ==>
           Walk(t', root, page) == if page < LOW_PAGES then Page(page, false, true) else Fault
  {
    SpaceKeepsForest(t, slots, root, pdpt, directory);
    forall r: nat, q: nat | IsRoot(slots, r) && r < |t| && q < PAGE_COUNT {
      SpaceKeepsWalks(t, slots, root, pdpt, directory, r, q);
    }
    forall page: nat | page < PAGE_COUNT {
      SpaceWalks(t, slots, root, pdpt, directory, page);
    }
  }
}
