/** Four-level x86-64 page tables as values: the hardware walk, the shape the kernel
    keeps the tables in, and what each change to a table does to every translation. */
module Paging {

  /** An entry has room for a 40-bit frame number. */
  const MAX_FRAMES := 0x100_0000_0000

  const PAGE_COUNT := 0x10_0000_0000

  /** Page number of the first page above the identity-mapped gigabyte. */
  const LOW_PAGES := 0x4_0000

  type Table = entries: seq<nat> | |entries| == 512 witness seq(512, _ => 0)

  /** The physical frames, each read as a table of 512 entries. */
  type Tables = seq<Table>

  function EmptyTable(): Table {
    seq(512, _ => 0)
  }

  predicate Present(entry: nat) {
    entry % 2 == 1
  }

  predicate Writable(entry: nat) {
    entry / 2 % 2 == 1
  }

  predicate User(entry: nat) {
    entry / 4 % 2 == 1
  }

  predicate Large(entry: nat) {
    entry / 128 % 2 == 1
  }

  /** The frame number in bits 51 to 12 of an entry. */
  function Target(entry: nat): nat {
    entry / 4096 % MAX_FRAMES
  }

  /** The high-order part of a page number that selects a table at `level`. */
  function Prefix(page: nat, level: nat): nat
    requires level <= 4
  {
    match level
    case 0 => page / 0x10_0000_0000
    case 1 => page / 0x800_0000
    case 2 => page / 0x4_0000
    case 3 => page / 512
    case _ => page
  }

  /** The nine bits of a page number that index a table at `level`. */
  function Index(page: nat, level: nat): (i: nat)
    requires level <= 3
    ensures i < 512
  {
    Prefix(page, level + 1) % 512
  }

  lemma PrefixSplit(page: nat, level: nat)
    requires level <= 3
    ensures Prefix(page, level + 1) == 512 * Prefix(page, level) + Index(page, level)
  {
    match level {
      case 0 => assert page / 0x10_0000_0000 == page / 0x800_0000 / 512;
      case 1 => assert page / 0x800_0000 == page / 0x4_0000 / 512;
      case 2 => assert page / 0x4_0000 == page / 512 / 512;
      case _ =>
    }
  }

  datatype Translation = Fault | Page(frame: nat, user: bool, writable: bool)

  /** The hardware's walk from a table at `level`, with the permissions gathered so far
      (Intel SDM volume 3A, section 4.5). */
  function WalkFrom(t: Tables, table: nat, level: nat, page: nat, user: bool, writable: bool): Translation
    requires table < |t| && level <= 3
    decreases 4 - level
  {
    var entry := t[table][Index(page, level)];
    var u, w := user && User(entry), writable && Writable(entry);
    if !Present(entry) then
      Fault
    else if level == 3 then
      Page(Target(entry), u, w)
    else if Large(entry) then
      match level
      case 0 => Fault
      case 1 => Page(Target(entry) / 0x4_0000 * 0x4_0000 + page % 0x4_0000, u, w)
      case _ => Page(Target(entry) / 512 * 512 + page % 512, u, w)
    else if Target(entry) < |t| then
      WalkFrom(t, Target(entry), level + 1, page, u, w)
    else
      Fault
  }

  /** The translation of a virtual page in the address space whose top table is `root`. */
  function Walk(t: Tables, root: nat, page: nat): Translation
    requires root < |t|
  {
    WalkFrom(t, root, 0, page, true, true)
  }

  /** Where a table frame sits: its address space, its level, the page-number prefix it
      serves and the table that points to it. */
  datatype Slot = Slot(root: nat, level: nat, prefix: nat, parent: nat)

  type Slots = map<nat, Slot>

  /** The two-megabyte supervisor mapping of the low gigabyte. */
  function IdentityEntry(i: nat): nat {
    i * 0x20_0000 + 0x83
  }

  /** The entry that links table `child`; only the link to the low page directory is
      closed to user mode. */
  function LinkEntry(slot: Slot, i: nat, child: nat): nat {
    4096 * child + if slot.level == 1 && slot.prefix == 0 && i == 0 then 3 else 7
  }

  predicate IsLowDirectory(slot: Slot) {
    slot.level == 2 && slot.prefix == 0
  }

  ghost predicate EntryOk(t: Tables, slots: Slots, table: nat, i: nat)
    requires table in slots && table < |t| && i < 512
  {
    var entry, slot := t[table][i], slots[table];
    if IsLowDirectory(slot) then
      entry == IdentityEntry(i)
    else
      && (Present(entry) ==>
            && Target(entry) in slots
            && entry == LinkEntry(slot, i, Target(entry))
            && slots[Target(entry)] == Slot(slot.root, slot.level + 1, 512 * slot.prefix + i, table))
      && (slot.level <= 1 && slot.prefix == 0 && i == 0 ==> Present(entry))
  }

  /** Every table but a root is linked from its parent. */
  ghost predicate LinkedOk(t: Tables, slots: Slots, table: nat)
    requires table in slots
  {
    var slot := slots[table];
    && table < |t|
    && slot.level <= 3
    && (slot.level == 0 ==> slot == Slot(table, 0, 0, table))
    && (slot.level > 0 ==>
          && slot.parent in slots
          && slot.parent < |t|
          && slots[slot.parent].level == slot.level - 1
          && slots[slot.parent].root == slot.root
          && slots[slot.parent].prefix == slot.prefix / 512
          && t[slot.parent][slot.prefix % 512] == LinkEntry(slots[slot.parent], slot.prefix % 512, table))
  }

  /** The tables form one tree per address space, and each tree maps the low gigabyte
      to itself for the supervisor. */
  ghost predicate Forest(t: Tables, slots: Slots) {
    && |t| <= MAX_FRAMES
    && (forall table {:trigger LinkedOk(t, slots, table)} :: table in slots ==> LinkedOk(t, slots, table))
    && (forall table, i {:trigger EntryOk(t, slots, table, i)} ::
          table in slots && table < |t| && slots[table].level < 3 && 0 <= i < 512 ==> EntryOk(t, slots, table, i))
  }

  predicate IsRoot(slots: Slots, root: nat) {
    root in slots && slots[root].level == 0
  }

  // Division by the powers of two that pick an entry apart.

  lemma By2(e: nat, q: nat, r: nat)
    requires e == 2 * q + r && r < 2
    ensures e / 2 == q && e % 2 == r
  {
  }

  lemma By4(e: nat, q: nat, r: nat)
    requires e == 4 * q + r && r < 4
    ensures e / 4 == q
  {
  }

  lemma By128(e: nat, q: nat, r: nat)
    requires e == 128 * q + r && r < 128
    ensures e / 128 == q
  {
  }

  lemma By4096(e: nat, q: nat, r: nat)
    requires e == 4096 * q + r && r < 4096
    ensures e / 4096 == q && e % 4096 == r
  {
  }

  lemma By512(e: nat, q: nat, r: nat)
    requires e == 512 * q + r && r < 512
    ensures e / 512 == q && e % 512 == r
  {
  }

  lemma PresentPart(frame: nat, low: nat)
    requires low < 4096
    ensures Present(4096 * frame + low) <==> Present(low)
  {
    By2(4096 * frame + low, 2048 * frame + low / 2, low % 2);
  }

  lemma WritablePart(frame: nat, low: nat)
    requires low < 4096
    ensures Writable(4096 * frame + low) <==> Writable(low)
  {
    By2(4096 * frame + low, 2048 * frame + low / 2, low % 2);
    By2(2048 * frame + low / 2, 1024 * frame + low / 4, low / 2 % 2);
  }

  lemma UserPart(frame: nat, low: nat)
    requires low < 4096
    ensures User(4096 * frame + low) <==> User(low)
  {
    By4(4096 * frame + low, 1024 * frame + low / 4, low % 4);
    By2(1024 * frame + low / 4, 512 * frame + low / 8, low / 4 % 2);
  }

  lemma LargePart(frame: nat, low: nat)
    requires low < 4096
    ensures Large(4096 * frame + low) <==> Large(low)
  {
    By128(4096 * frame + low, 32 * frame + low / 128, low % 128);
    By2(32 * frame + low / 128, 16 * frame + low / 256, low / 128 % 2);
  }

  lemma TargetPart(frame: nat, low: nat)
    requires low < 4096
    ensures Target(4096 * frame + low) == frame % MAX_FRAMES
    ensures (4096 * frame + low) / 4096 == frame
  {
    By4096(4096 * frame + low, frame, low);
  }

  /** The flag bits and the target of an entry put together from a frame number and low bits. */
  lemma EntryParts(frame: nat, low: nat)
    requires low < 4096
    ensures var e := 4096 * frame + low;
      && (Present(e) <==> Present(low)) && (Writable(e) <==> Writable(low))
      && (User(e) <==> User(low)) && (Large(e) <==> Large(low))
      && Target(e) == frame % MAX_FRAMES && e / 4096 == frame
  {
    PresentPart(frame, low);
    WritablePart(frame, low);
    UserPart(frame, low);
    LargePart(frame, low);
    TargetPart(frame, low);
  }

  lemma LinkEntryParts(slot: Slot, i: nat, child: nat)
    requires child < MAX_FRAMES
    ensures var e := LinkEntry(slot, i, child);
      Present(e) && Writable(e) && !Large(e) && Target(e) == child
      && (User(e) <==> !(slot.level == 1 && slot.prefix == 0 && i == 0))
  {
    hide Present;
    hide Writable;
    hide User;
    hide Large;
    hide Target;
    EntryParts(child, 3);
    EntryParts(child, 7);
    SmallParts();
  }

  lemma SmallParts()
    ensures Present(3) && Writable(3) && !User(3) && !Large(3)
    ensures Present(7) && Writable(7) && User(7) && !Large(7)
  {
  }

  lemma IdentityEntryParts(i: nat)
    requires i < 512
    ensures var e := IdentityEntry(i);
      Present(e) && Writable(e) && !User(e) && Large(e) && Target(e) / 512 == i
  {
    IdentityFlags(i);
    IdentityTarget(i);
  }

  lemma IdentityFlags(i: nat)
    ensures var e := IdentityEntry(i);
      Present(e) && Writable(e) && !User(e) && Large(e)
  {
    assert IdentityEntry(i) == 4096 * (512 * i) + 0x83;
    PresentPart(512 * i, 0x83);
    WritablePart(512 * i, 0x83);
    UserPart(512 * i, 0x83);
    LargePart(512 * i, 0x83);
  }

  lemma IdentityTarget(i: nat)
    requires i < 512
    ensures Target(IdentityEntry(i)) / 512 == i
  {
    TargetPart(512 * i, 0x83);
    By512(512 * i, i, 0);
  }

  lemma LowIndexes(page: nat)
    requires page < LOW_PAGES
    ensures Index(page, 0) == 0 && Index(page, 1) == 0 && Index(page, 2) == page / 512
  {
  }

  /** No table is shared: an entry that links a table is the only one that does. */
  lemma NoSharing(t: Tables, slots: Slots, a: nat, i: nat, b: nat, j: nat)
    requires Forest(t, slots)
    requires a in slots && slots[a].level < 3 && !IsLowDirectory(slots[a]) && i < 512
    requires b in slots && slots[b].level < 3 && !IsLowDirectory(slots[b]) && j < 512
    requires LinkedOk(t, slots, a) && LinkedOk(t, slots, b)
    requires Present(t[a][i]) && Present(t[b][j]) && Target(t[a][i]) == Target(t[b][j])
    ensures a == b && i == j
  {
    assert EntryOk(t, slots, a, i);
    assert EntryOk(t, slots, b, j);
  }

  /** The low gigabyte is mapped to itself and is out of reach of user mode. */
  lemma LowIdentity(t: Tables, slots: Slots, root: nat, page: nat)
    requires Forest(t, slots) && IsRoot(slots, root) && LinkedOk(t, slots, root)
    requires page < LOW_PAGES
    ensures Walk(t, root, page) == Page(page, false, true)
  {
    assert EntryOk(t, slots, root, 0);
    var pdpt := Target(t[root][0]);
    assert LinkedOk(t, slots, pdpt);
    LinkEntryParts(slots[root], 0, pdpt);
    assert EntryOk(t, slots, pdpt, 0);
    var directory := Target(t[pdpt][0]);
    assert LinkedOk(t, slots, directory);
    LinkEntryParts(slots[pdpt], 0, directory);
    LowIndexes(page);
    var i := page / 512;
    assert EntryOk(t, slots, directory, i);
    assert WalkFrom(t, directory, 2, page, false, true) == Page(page, false, true) by {
      IdentityEntryParts(i);
    }
    assert WalkFrom(t, pdpt, 1, page, true, true) == Page(page, false, true);
  }

  /** A walk that meets only unchanged entries, or entries that come to the same thing, is unchanged. */
  ghost predicate SamePath(t: Tables, t': Tables, slots: Slots, root: nat, page: nat) {
    |t'| == |t| && forall table ::
      table in slots && table < |t| && slots[table].level <= 3
      && slots[table].root == root && slots[table].prefix == Prefix(page, slots[table].level)
      ==> t'[table][Index(page, slots[table].level)] == t[table][Index(page, slots[table].level)]
  }

  lemma {:induction false} SameWalk(t: Tables, t': Tables, slots: Slots, table: nat, page: nat, user: bool,
      writable: bool)
    requires Forest(t, slots) && table in slots && LinkedOk(t, slots, table)
    requires slots[table].prefix == Prefix(page, slots[table].level)
    requires SamePath(t, t', slots, slots[table].root, page)
    ensures WalkFrom(t', table, slots[table].level, page, user, writable)
         == WalkFrom(t, table, slots[table].level, page, user, writable)
    decreases 3 - slots[table].level
  {
    var level := slots[table].level;
    var i := Index(page, level);
    var entry := t[table][i];
    if level < 3 && Present(entry) && !Large(entry) {
      ChildOnPath(t, slots, table, page);
      SameWalk(t, t', slots, Target(entry), page, user && User(entry), writable && Writable(entry));
    }
  }

  // ----- Linking a new, empty table -----

  function WithTable(t: Tables, table: nat, i: nat, child: nat): Tables
    requires table < |t| && i < 512 && child < |t|
  {
    var zeroed: Tables := t[child := EmptyTable()];
    zeroed[table := zeroed[table][i := 4096 * child + 7]]
  }

  function ChildSlot(slots: Slots, table: nat, i: nat): Slot
    requires table in slots
  {
    Slot(slots[table].root, slots[table].level + 1, 512 * slots[table].prefix + i, table)
  }

  /** A free place for a new table: an absent entry above level 3 outside the low page directory. */
  ghost predicate Linkable(t: Tables, slots: Slots, table: nat, i: nat, child: nat) {
    && table in slots && table < |t| && slots[table].level < 3 && i < 512
    && !IsLowDirectory(slots[table])
    && child !in slots && child < |t|
    && !Present(t[table][i])
  }

  lemma LinkKeepsForest(t: Tables, slots: Slots, table: nat, i: nat, child: nat)
    requires Forest(t, slots) && Linkable(t, slots, table, i, child)
    requires !IsLowDirectory(ChildSlot(slots, table, i))
    ensures Forest(WithTable(t, table, i, child), slots[child := ChildSlot(slots, table, i)])
  {
    var t' := WithTable(t, table, i, child);
    var slots' := slots[child := ChildSlot(slots, table, i)];
    forall f | f in slots' ensures LinkedOk(t', slots', f) {
      LinkKeepsLinked(t, slots, table, i, child, f);
    }
    forall f, j | f in slots' && f < |t'| && slots'[f].level < 3 && 0 <= j < 512 ensures EntryOk(t', slots', f, j) {
      LinkKeepsEntry(t, slots, table, i, child, f, j);
    }
  }

  lemma LinkKeepsLinked(t: Tables, slots: Slots, table: nat, i: nat, child: nat, f: nat)
    requires Forest(t, slots) && Linkable(t, slots, table, i, child)
    requires f in slots[child := ChildSlot(slots, table, i)]
    ensures LinkedOk(WithTable(t, table, i, child), slots[child := ChildSlot(slots, table, i)], f)
  {
    if f != child {
      assert LinkedOk(t, slots, f);
      var s := slots[f];
      if s.level > 0 {
        var k := s.prefix % 512;
        LinkEntryParts(slots[s.parent], k, f);
        assert !(s.parent == table && k == i);
      }
    } else {
      assert EntryOk(t, slots, table, i);
      By512(512 * slots[table].prefix + i, slots[table].prefix, i);
    }
  }

  lemma LinkKeepsEntry(t: Tables, slots: Slots, table: nat, i: nat, child: nat, f: nat, j: nat)
    requires Forest(t, slots) && Linkable(t, slots, table, i, child)
    requires !IsLowDirectory(ChildSlot(slots, table, i))
    requires f in slots[child := ChildSlot(slots, table, i)] && f < |t| && j < 512
    requires slots[child := ChildSlot(slots, table, i)][f].level < 3
    ensures EntryOk(WithTable(t, table, i, child), slots[child := ChildSlot(slots, table, i)], f, j)
  {
    if f == child {
      assert EntryOk(t, slots, table, i);
      assert !Present(WithTable(t, table, i, child)[child][j]);
    } else {
      assert EntryOk(t, slots, f, j);
      if f == table && j == i {
        LinkEntryParts(slots[table], i, child);
      }
    }
  }

  lemma WithTableThere(t: Tables, table: nat, i: nat, child: nat)
    requires table < |t| && i < 512 && child < |t| && table != child
    ensures var t' := WithTable(t, table, i, child);
      |t'| == |t| && t'[child] == EmptyTable() && t'[table][i] == 4096 * child + 7
  {
  }

  lemma WithTableElsewhere(t: Tables, table: nat, i: nat, child: nat, other: nat, k: nat)
    requires table < |t| && i < 512 && child < |t| && other < |t| && k < 512
    requires other != child && !(other == table && k == i)
    ensures WithTable(t, table, i, child)[other][k] == t[other][k]
  {
  }

  /** The table below an entry on the path of `page` is again on the path of `page`. */
  lemma ChildOnPath(t: Tables, slots: Slots, table: nat, page: nat)
    requires Forest(t, slots) && table in slots && table < |t| && slots[table].level < 3
    requires slots[table].prefix == Prefix(page, slots[table].level)
    requires Present(t[table][Index(page, slots[table].level)])
    requires !Large(t[table][Index(page, slots[table].level)])
    ensures var next := Target(t[table][Index(page, slots[table].level)]);
      && next in slots && LinkedOk(t, slots, next) && next < |t|
      && slots[next].level == slots[table].level + 1
      && slots[next].root == slots[table].root
      && slots[next].prefix == Prefix(page, slots[next].level)
  {
    var level := slots[table].level;
    var i := Index(page, level);
    assert EntryOk(t, slots, table, i);
    if IsLowDirectory(slots[table]) {
      IdentityEntryParts(i);
    }
    PrefixSplit(page, level);
    assert LinkedOk(t, slots, Target(t[table][i]));
  }

  lemma EmptyTableFaults(t: Tables, table: nat, level: nat, page: nat, user: bool, writable: bool)
    requires table < |t| && t[table] == EmptyTable() && level <= 3
    ensures WalkFrom(t, table, level, page, user, writable) == Fault
  {
  }

  lemma {:induction false} LinkKeepsWalkFrom(t: Tables, slots: Slots, table: nat, i: nat, child: nat,
                          from: nat, page: nat, user: bool, writable: bool)
    requires Forest(t, slots) && Linkable(t, slots, table, i, child)
    requires from in slots && from < |t| && slots[from].level <= 3 && LinkedOk(t, slots, from)
    requires slots[from].prefix == Prefix(page, slots[from].level)
    ensures WalkFrom(WithTable(t, table, i, child), from, slots[from].level, page, user, writable)
         == WalkFrom(t, from, slots[from].level, page, user, writable)
    decreases 3 - slots[from].level
  {
    assert |t| <= MAX_FRAMES;
    hide Forest;
    hide WithTable;
    hide Index;
    hide LinkedOk;
    WithTableThere(t, table, i, child);
    var t' := WithTable(t, table, i, child);
    var level := slots[from].level;
    var k := Index(page, level);
    var entry := t[from][k];
    if from == table && k == i {
      EmptyTableFaults(t', child, level + 1, page, user, writable);
      LinkEntryParts(Slot(0, 0, 0, 0), 1, child);
    } else {
      WithTableElsewhere(t, table, i, child, from, k);
      if level < 3 && Present(entry) && !Large(entry) {
        ChildOnPath(t, slots, from, page);
        LinkKeepsWalkFrom(t, slots, table, i, child, Target(entry), page,
                          user && User(entry), writable && Writable(entry));
      }
    }
  }

  /** Linking an empty table changes no translation in any address space. */
  lemma LinkKeepsWalks(t: Tables, slots: Slots, table: nat, i: nat, child: nat, root: nat, page: nat)
    requires Forest(t, slots) && Linkable(t, slots, table, i, child)
    requires IsRoot(slots, root) && root < |t| && page < PAGE_COUNT
    ensures Walk(WithTable(t, table, i, child), root, page) == Walk(t, root, page)
  {
    assert LinkedOk(t, slots, root);
    LinkKeepsWalkFrom(t, slots, table, i, child, root, page, true, true);
  }

  // ----- Writing a leaf entry -----

  function WithLeaf(t: Tables, table: nat, i: nat, entry: nat): Tables
    requires table < |t| && i < 512
  {
    t[table := t[table][i := entry]]
  }

  lemma LeafKeepsForest(t: Tables, slots: Slots, table: nat, i: nat, entry: nat)
    requires Forest(t, slots) && table in slots && table < |t| && slots[table].level == 3 && i < 512
    ensures Forest(WithLeaf(t, table, i, entry), slots)
  {
    var t' := WithLeaf(t, table, i, entry);
    forall f | f in slots ensures LinkedOk(t', slots, f) {
      assert LinkedOk(t, slots, f);
    }
    forall f, j | f in slots && slots[f].level < 3 && 0 <= j < 512 ensures EntryOk(t', slots, f, j) {
      assert EntryOk(t, slots, f, j);
    }
  }

  /** Writing a leaf entry leaves every other page of every address space as it was. */
  lemma LeafKeepsOtherWalks(t: Tables, slots: Slots, table: nat, i: nat, entry: nat, root: nat, page: nat)
    requires Forest(t, slots) && table in slots && table < |t| && slots[table].level == 3 && i < 512
    requires IsRoot(slots, root) && root < |t| && page < PAGE_COUNT
    requires root != slots[table].root || page != 512 * slots[table].prefix + i
    ensures Walk(WithLeaf(t, table, i, entry), root, page) == Walk(t, root, page)
  {
    var t' := WithLeaf(t, table, i, entry);
    assert LinkedOk(t, slots, root);
    assert SamePath(t, t', slots, root, page) by {
      PrefixSplit(page, 3);
    }
    SameWalk(t, t', slots, root, page, true, true);
  }

  /** Above the low gigabyte, the walk for a page passes, with full permissions, every table on its path. */
  lemma {:induction false} WalkReaches(t: Tables, slots: Slots, page: nat, table: nat)
    requires Forest(t, slots) && LOW_PAGES <= page
    requires table in slots && LinkedOk(t, slots, table) && slots[table].root < |t|
    requires slots[table].prefix == Prefix(page, slots[table].level) && page < PAGE_COUNT
    ensures Walk(t, slots[table].root, page) == WalkFrom(t, table, slots[table].level, page, true, true)
    decreases slots[table].level
  {
    var slot := slots[table];
    if slot.level > 0 {
      var parent, i := slot.parent, Index(page, slot.level - 1);
      PrefixSplit(page, slot.level - 1);
      By512(slot.prefix, Prefix(page, slot.level - 1), i);
      assert LinkedOk(t, slots, parent);
      WalkReaches(t, slots, page, parent);
      LinkEntryParts(slots[parent], i, table);
      assert !(slots[parent].level == 1 && slots[parent].prefix == 0 && i == 0);
      Descend(t, parent, slot.level - 1, page);
    }
  }

  lemma Descend(t: Tables, table: nat, level: nat, page: nat)
    requires table < |t| && level < 3
    requires var e := t[table][Index(page, level)];
      Present(e) && Writable(e) && User(e) && !Large(e) && Target(e) < |t|
    ensures WalkFrom(t, table, level, page, true, true)
         == WalkFrom(t, Target(t[table][Index(page, level)]), level + 1, page, true, true)
  {
  }

  // ----- A new address space -----

  function LowDirectoryTable(): Table {
    seq(512, (i: nat) => IdentityEntry(i))
  }

  /** The three tables of a new address space. */
  function WithSpace(t: Tables, root: nat, pdpt: nat, directory: nat): Tables
    requires root < |t| && pdpt < |t| && directory < |t|
  {
    var top: Table := EmptyTable()[0 := 4096 * pdpt + 7];
    var middle: Table := EmptyTable()[0 := 4096 * directory + 3];
    t[root := top][pdpt := middle][directory := LowDirectoryTable()]
  }

  function SpaceSlots(slots: Slots, root: nat, pdpt: nat, directory: nat): Slots {
    slots[root := Slot(root, 0, 0, root)]
         [pdpt := Slot(root, 1, 0, root)]
         [directory := Slot(root, 2, 0, pdpt)]
  }

  ghost predicate Unused(t: Tables, slots: Slots, root: nat, pdpt: nat, directory: nat) {
    && root < |t| && pdpt < |t| && directory < |t|
    && root !in slots && pdpt !in slots && directory !in slots
    && root != pdpt && pdpt != directory && root != directory
  }

  lemma SpaceLinked(t: Tables, slots: Slots, root: nat, pdpt: nat, directory: nat, table: nat)
    requires Forest(t, slots) && Unused(t, slots, root, pdpt, directory)
    requires table in SpaceSlots(slots, root, pdpt, directory)
    ensures LinkedOk(WithSpace(t, root, pdpt, directory), SpaceSlots(slots, root, pdpt, directory), table)
  {
    if table in slots {
      assert LinkedOk(t, slots, table);
    }
  }

  lemma SpaceEntry(t: Tables, slots: Slots, root: nat, pdpt: nat, directory: nat, table: nat, i: nat)
    requires Forest(t, slots) && Unused(t, slots, root, pdpt, directory)
    requires table in SpaceSlots(slots, root, pdpt, directory) && table < |t| && i < 512
    requires SpaceSlots(slots, root, pdpt, directory)[table].level < 3
    ensures EntryOk(WithSpace(t, root, pdpt, directory), SpaceSlots(slots, root, pdpt, directory), table, i)
  {
    if table in slots {
      assert EntryOk(t, slots, table, i);
      assert LinkedOk(t, slots, table);
    } else if i == 0 {
      LinkEntryParts(Slot(root, 0, 0, root), 0, pdpt);
      LinkEntryParts(Slot(root, 1, 0, root), 0, directory);
    }
  }

  lemma SpaceKeepsForest(t: Tables, slots: Slots, root: nat, pdpt: nat, directory: nat)
    requires Forest(t, slots) && Unused(t, slots, root, pdpt, directory)
    ensures Forest(WithSpace(t, root, pdpt, directory), SpaceSlots(slots, root, pdpt, directory))
  {
    var t' := WithSpace(t, root, pdpt, directory);
    var slots' := SpaceSlots(slots, root, pdpt, directory);
    forall f | f in slots' ensures LinkedOk(t', slots', f) {
      SpaceLinked(t, slots, root, pdpt, directory, f);
    }
    forall f, j | f in slots' && slots'[f].level < 3 && 0 <= j < 512 ensures EntryOk(t', slots', f, j) {
      assert LinkedOk(t', slots', f);
      SpaceEntry(t, slots, root, pdpt, directory, f, j);
    }
  }

  /** A new address space leaves the others alone. */
  lemma SpaceKeepsWalks(t: Tables, slots: Slots, root: nat, pdpt: nat, directory: nat, other: nat, page: nat)
    requires Forest(t, slots) && Unused(t, slots, root, pdpt, directory)
    requires IsRoot(slots, other) && other < |t| && page < PAGE_COUNT
    ensures Walk(WithSpace(t, root, pdpt, directory), other, page) == Walk(t, other, page)
  {
    var t' := WithSpace(t, root, pdpt, directory);
    assert LinkedOk(t, slots, other);
    assert SamePath(t, t', slots, other, page);
    SameWalk(t, t', slots, other, page, true, true);
  }

  /** A new address space maps the low gigabyte to itself for the supervisor and nothing else. */
  lemma SpaceWalks(t: Tables, slots: Slots, root: nat, pdpt: nat, directory: nat, page: nat)
    requires Forest(t, slots) && Unused(t, slots, root, pdpt, directory) && page < PAGE_COUNT
    ensures Walk(WithSpace(t, root, pdpt, directory), root, page)
         == if page < LOW_PAGES then Page(page, false, true) else Fault
  {
    var t' := WithSpace(t, root, pdpt, directory);
    var slots' := SpaceSlots(slots, root, pdpt, directory);
    SpaceKeepsForest(t, slots, root, pdpt, directory);
    if page < LOW_PAGES {
      assert LinkedOk(t', slots', root);
      LowIdentity(t', slots', root, page);
    } else if Index(page, 0) == 0 {
      LinkEntryParts(slots'[root], 0, pdpt);
      assert Index(page, 1) != 0;
      assert !Present(t'[pdpt][Index(page, 1)]);
    } else {
      assert !Present(t'[root][Index(page, 0)]);
    }
  }

  // ----- Updating one translation -----

  /** Every translation of every address space in `slots` is the same in both states. */
  ghost predicate SameWalks(t: Tables, t': Tables, slots: Slots) {
    |t'| == |t| && forall r: nat, q: nat ::
      IsRoot(slots, r) && r < |t| && q < PAGE_COUNT ==> Walk(t', r, q) == Walk(t, r, q)
  }

  /** The translations of every address space change at one page of one space only. */
  ghost predicate OneTranslation(t: Tables, t': Tables, slots: Slots, root: nat, page: nat, target: Translation) {
    |t'| == |t| && forall r: nat, q: nat ::
      IsRoot(slots, r) && r < |t| && q < PAGE_COUNT ==>
        Walk(t', r, q) == if r == root && q == page then target else Walk(t, r, q)
  }

  /** A frame that holds no table can hold anything. */
  lemma OtherFramesKeepForest(t: Tables, t': Tables, slots: Slots)
    requires Forest(t, slots) && |t'| == |t|
    requires forall f :: f in slots && f < |t| ==> t'[f] == t[f]
    ensures Forest(t', slots)
  {
    forall f | f in slots ensures LinkedOk(t', slots, f) {
      assert LinkedOk(t, slots, f);
    }
    forall f, j | f in slots && slots[f].level < 3 && 0 <= j < 512 ensures EntryOk(t', slots, f, j) {
      assert EntryOk(t, slots, f, j);
    }
  }

  lemma OtherFramesKeepWalks(t: Tables, t': Tables, slots: Slots)
    requires Forest(t, slots) && |t'| == |t|
    requires forall f :: f in slots && f < |t| ==> t'[f] == t[f]
    ensures SameWalks(t, t', slots)
  {
    forall r: nat, q: nat | IsRoot(slots, r) && r < |t| && q < PAGE_COUNT ensures Walk(t', r, q) == Walk(t, r, q) {
      assert LinkedOk(t, slots, r);
      SameWalk(t, t', slots, r, q, true, true);
    }
  }

  /** The leaf entry for a frame: `physical | flags | VM_PRESENT`. */
  function LeafEntry(frame: nat, flags: nat): nat {
    4096 * frame + if Present(flags) then flags else flags + 1
  }

  function Requested(frame: nat, flags: nat): Translation {
    Page(frame % MAX_FRAMES, User(flags), Writable(flags))
  }

  lemma LeafEntryParts(frame: nat, flags: nat)
    requires flags < 4096
    ensures var e := LeafEntry(frame, flags);
      Present(e) && (User(e) <==> User(flags)) && (Writable(e) <==> Writable(flags)) && Target(e) == frame % MAX_FRAMES
  {
    var low := if Present(flags) then flags else flags + 1;
    EntryParts(frame, low);
    By2(flags, flags / 2, flags % 2);
    By2(low, flags / 2, 1);
    By4(low, flags / 4, low % 4);
  }

  lemma LeafWalk(t: Tables, table: nat, page: nat, frame: nat, flags: nat)
    requires table < |t| && flags < 4096
    ensures WalkFrom(WithLeaf(t, table, Index(page, 3), LeafEntry(frame, flags)), table, 3, page, true, true)
         == Requested(frame, flags)
  {
    LeafEntryParts(frame, flags);
  }

  /** Writing the leaf entry at the end of the walk for a page sets the translation of that page alone. */
  lemma LeafSetsTranslation(t: Tables, slots: Slots, root: nat, page: nat, table: nat, frame: nat, flags: nat)
    requires Forest(t, slots) && IsRoot(slots, root) && root < |t| && flags < 4096
    requires LOW_PAGES <= page < PAGE_COUNT
    requires table in slots && table < |t| && slots[table] == Slot(root, 3, Prefix(page, 3), slots[table].parent)
    ensures OneTranslation(t, WithLeaf(t, table, Index(page, 3), LeafEntry(frame, flags)), slots,
                           root, page, Requested(frame, flags))
  {
    var t' := WithLeaf(t, table, Index(page, 3), LeafEntry(frame, flags));
    PrefixSplit(page, 3);
    forall r: nat, q: nat | IsRoot(slots, r) && r < |t| && q < PAGE_COUNT
      ensures Walk(t', r, q) == if r == root && q == page then Requested(frame, flags) else Walk(t, r, q)
    {
      if r == root && q == page {
        LeafKeepsForest(t, slots, table, Index(page, 3), LeafEntry(frame, flags));
        assert LinkedOk(t', slots, table);
        WalkReaches(t', slots, page, table);
        LeafWalk(t, table, page, frame, flags);
      } else {
        LeafKeepsOtherWalks(t, slots, table, Index(page, 3), LeafEntry(frame, flags), r, q);
      }
    }
  }
}
