/** What vm.c does to the translations when it is asked to map a page of the identity-mapped
    gigabyte: it takes the large page found there for a table and stores into ordinary memory,
    which may hold a page table. */
module LowMapping {
  import opened Paging

  /** The frame the store goes to: the first of the large page the walk runs into. */
  function StruckFrame(page: nat): nat {
    512 * Index(page, 2)
  }

  function Stored(t: Tables, page: nat, frame: nat, flags: nat): Tables
    requires StruckFrame(page) < |t|
  {
    WithLeaf(t, StruckFrame(page), Index(page, 3), LeafEntry(frame, flags))
  }

  /** The walk for page `q` of the space `root` uses entry `i` of a table. */
  predicate Passes(slots: Slots, table: nat, i: nat, root: nat, q: nat)
    requires table in slots && slots[table].level <= 3
  {
    && slots[table].root == root && slots[table].prefix == Prefix(q, slots[table].level)
    && Index(q, slots[table].level) == i
  }

  /** The struck frame is a table and the walk for `q` uses the struck entry. */
  predicate Struck(slots: Slots, page: nat, root: nat, q: nat) {
    var f := StruckFrame(page);
    f in slots && slots[f].level <= 3 && Passes(slots, f, Index(page, 3), root, q)
  }

  /** Where a walk goes from an entry found at `level`. */
  function Follow(t: Tables, entry: nat, level: nat, page: nat, user: bool, writable: bool): Translation
    requires level <= 3
  {
    var u, w := user && User(entry), writable && Writable(entry);
    if !Present(entry) then Fault
    else if level == 3 then Page(Target(entry), u, w)
    else if Large(entry) then
      match level
      case 0 => Fault
      case 1 => Page(Target(entry) / 0x4_0000 * 0x4_0000 + page % 0x4_0000, u, w)
      case _ => Page(Target(entry) / 512 * 512 + page % 512, u, w)
    else if Target(entry) < |t| then WalkFrom(t, Target(entry), level + 1, page, u, w)
    else Fault
  }

  /** A changed entry changes only the walks that use it. */
  lemma OtherWalksStay(t: Tables, slots: Slots, table: nat, i: nat, entry: nat, root: nat, q: nat)
    requires Forest(t, slots) && table in slots && LinkedOk(t, slots, table) && i < 512
    requires IsRoot(slots, root) && LinkedOk(t, slots, root) && q < PAGE_COUNT && !Passes(slots, table, i, root, q)
    ensures Walk(WithLeaf(t, table, i, entry), root, q) == Walk(t, root, q)
  {
    var t' := WithLeaf(t, table, i, entry);
    assert SamePath(t, t', slots, root, q);
    SameWalk(t, t', slots, root, q, true, true);
  }

  /** The walk for a page on the path of a table gets to it, with user access unless the table is
      the low page directory, as long as the tables above are as they were. */
  lemma {:induction false} WalkGetsTo(t: Tables, t': Tables, slots: Slots, q: nat, table: nat)
    requires Forest(t, slots) && table in slots && LinkedOk(t, slots, table) && |t'| == |t|
    requires slots[table].prefix == Prefix(q, slots[table].level) && q < PAGE_COUNT
    requires forall f :: f in slots && f < |t| && slots[f].level < slots[table].level ==> t'[f] == t[f]
    requires slots[table].root < |t|
    ensures Walk(t', slots[table].root, q)
         == WalkFrom(t', table, slots[table].level, q, !IsLowDirectory(slots[table]), true)
    decreases slots[table].level
  {
    hide Walk;
    var slot := slots[table];
    if slot.level == 0 {
      TopOfWalk(t', table, q);
    } else {
      var parent, i := slot.parent, Index(q, slot.level - 1);
      PrefixSplit(q, slot.level - 1);
      By512(slot.prefix, Prefix(q, slot.level - 1), i);
      assert LinkedOk(t, slots, parent);
      WalkGetsTo(t, t', slots, q, parent);
      LinkEntryParts(slots[parent], i, table);
      assert EntryOk(t, slots, parent, i);
      if IsLowDirectory(slots[parent]) {
        IdentityEntryParts(i);
      } else {
        OneDown(t', parent, slot.level - 1, q);
      }
    }
  }

  lemma TopOfWalk(t: Tables, root: nat, q: nat)
    requires root < |t|
    ensures Walk(t, root, q) == WalkFrom(t, root, 0, q, true, true)
  {
  }

  lemma OneDown(t: Tables, table: nat, level: nat, q: nat)
    requires table < |t| && level < 3
    requires var e := t[table][Index(q, level)]; Present(e) && Writable(e) && !Large(e) && Target(e) < |t|
    ensures var e := t[table][Index(q, level)];
      WalkFrom(t, table, level, q, true, true) == WalkFrom(t, Target(e), level + 1, q, User(e), true)
  {
  }

  /** What a page that uses the struck entry translates to. */
  ghost function After(t: Tables, slots: Slots, page: nat, frame: nat, flags: nat, q: nat): Translation
    requires StruckFrame(page) < |t| && StruckFrame(page) in slots && slots[StruckFrame(page)].level <= 3
  {
    var slot := slots[StruckFrame(page)];
    Follow(Stored(t, page, frame, flags), LeafEntry(frame, flags), slot.level, q, !IsLowDirectory(slot), true)
  }

  /** The effect on every translation of every address space: the walks that use the struck entry
      go on from what was stored, all others are as before. */
  lemma LowMapEffect(t: Tables, slots: Slots, page: nat, frame: nat, flags: nat, root: nat, q: nat)
    requires Forest(t, slots) && page < LOW_PAGES && StruckFrame(page) < |t|
    requires IsRoot(slots, root) && root < |t| && q < PAGE_COUNT
    ensures Walk(Stored(t, page, frame, flags), root, q)
         == if Struck(slots, page, root, q) then After(t, slots, page, frame, flags, q) else Walk(t, root, q)
  {
    hide Walk;
    var f, t' := StruckFrame(page), Stored(t, page, frame, flags);
    assert LinkedOk(t, slots, root);
    if f !in slots {
      OtherFramesKeepWalks(t, t', slots);
      assert Walk(t', root, q) == Walk(t, root, q);
    } else {
      assert LinkedOk(t, slots, f);
      if Passes(slots, f, Index(page, 3), root, q) {
        WalkGetsTo(t, t', slots, q, f);
      } else {
        OtherWalksStay(t, slots, f, Index(page, 3), LeafEntry(frame, flags), root, q);
      }
    }
  }

  /** Below one gigabyte `vm_map_page` reports success; the page then has what was asked for exactly
      when that was the identity mapping it had, or its own walk now goes through the store and
      comes to it. */
  lemma LowMapGivesPage(t: Tables, slots: Slots, root: nat, page: nat, frame: nat, flags: nat)
    requires Forest(t, slots) && IsRoot(slots, root) && root < |t| && page < LOW_PAGES && StruckFrame(page) < |t|
    ensures Walk(Stored(t, page, frame, flags), root, page) == Requested(frame, flags)
      <==> if Struck(slots, page, root, page) then After(t, slots, page, frame, flags, page) == Requested(frame, flags)
           else frame % MAX_FRAMES == page && !User(flags) && Writable(flags)
  {
    hide Walk;
    LowMapEffect(t, slots, page, frame, flags, root, page);
    assert LinkedOk(t, slots, root);
    LowIdentity(t, slots, root, page);
  }

  /** It changes no translation at all exactly when no table was struck, or every page that uses the
      struck entry comes to the same translation as before. */
  lemma LowMapHasNoEffect(t: Tables, slots: Slots, page: nat, frame: nat, flags: nat)
    requires Forest(t, slots) && page < LOW_PAGES && StruckFrame(page) < |t|
    ensures SameWalks(t, Stored(t, page, frame, flags), slots)
      <==> forall r: nat, q: nat {:trigger Struck(slots, page, r, q)} ::
             IsRoot(slots, r) && r < |t| && q < PAGE_COUNT && Struck(slots, page, r, q) ==>
               After(t, slots, page, frame, flags, q) == Walk(t, r, q)
  {
    hide Walk;
    hide After;
    forall r: nat, q: nat | IsRoot(slots, r) && r < |t| && q < PAGE_COUNT
      ensures Walk(Stored(t, page, frame, flags), r, q)
           == if Struck(slots, page, r, q) then After(t, slots, page, frame, flags, q) else Walk(t, r, q)
    {
      LowMapEffect(t, slots, page, frame, flags, r, q);
    }
  }

  /** A frame that holds no table may be struck without effect on translations. */
  lemma LowMapMissesTables(t: Tables, slots: Slots, page: nat, frame: nat, flags: nat)
    requires Forest(t, slots) && page < LOW_PAGES && StruckFrame(page) < |t| && StruckFrame(page) !in slots
    ensures SameWalks(t, Stored(t, page, frame, flags), slots)
  {
    OtherFramesKeepWalks(t, Stored(t, page, frame, flags), slots);
  }

  // ----- The struck frame is a table of level 3 -----

  /** The page whose leaf entry is overwritten. */
  function HitPage(slots: Slots, page: nat): nat
    requires StruckFrame(page) in slots
  {
    512 * slots[StruckFrame(page)].prefix + Index(page, 3)
  }

  /** The prefix of a table stays below the number of tables of its level, and tables of level 3 lie
      above the low gigabyte. */
  lemma {:induction false} PrefixRange(t: Tables, slots: Slots, table: nat)
    requires Forest(t, slots) && table in slots && LinkedOk(t, slots, table)
    ensures var slot := slots[table];
      slot.prefix < if slot.level == 0 then 1 else if slot.level == 1 then 512 else if slot.level == 2 then 0x4_0000
                    else 0x800_0000
    ensures slots[table].level == 3 ==> slots[table].prefix >= 512
    ensures IsRoot(slots, slots[table].root) && slots[table].root < |t|
    decreases slots[table].level
  {
    var slot := slots[table];
    if slot.level > 0 {
      assert LinkedOk(t, slots, slot.parent);
      PrefixRange(t, slots, slot.parent);
      if slot.level == 3 {
        assert EntryOk(t, slots, slot.parent, slot.prefix % 512);
        IdentityEntryParts(slot.prefix % 512);
        LinkEntryParts(slots[slot.parent], slot.prefix % 512, table);
      }
    }
  }

  /** Where the struck frame holds a table of level 3, mapping a low page rewrites the translation of
      another page, perhaps of another address space, to what was asked for, and no other. */
  lemma LowMapRewritesPage(t: Tables, slots: Slots, page: nat, frame: nat, flags: nat)
    requires Forest(t, slots) && page < LOW_PAGES && StruckFrame(page) < |t| && flags < 4096
    requires StruckFrame(page) in slots && slots[StruckFrame(page)].level == 3
    ensures LOW_PAGES <= HitPage(slots, page) < PAGE_COUNT && HitPage(slots, page) != page
    ensures OneTranslation(t, Stored(t, page, frame, flags), slots, slots[StruckFrame(page)].root,
                           HitPage(slots, page), Requested(frame, flags))
  {
    var f, hit := StruckFrame(page), HitPage(slots, page);
    assert LinkedOk(t, slots, f);
    PrefixRange(t, slots, f);
    By512(hit, slots[f].prefix, Index(page, 3));
    LeafSetsTranslation(t, slots, slots[f].root, hit, f, frame, flags);
  }

  /** Such a call is without effect exactly when the page it hits had already what was asked for. */
  lemma LowMapSparesPage(t: Tables, slots: Slots, page: nat, frame: nat, flags: nat)
    requires Forest(t, slots) && page < LOW_PAGES && StruckFrame(page) < |t| && flags < 4096
    requires StruckFrame(page) in slots && slots[StruckFrame(page)].level == 3
    ensures slots[StruckFrame(page)].root < |t| && HitPage(slots, page) < PAGE_COUNT
    ensures SameWalks(t, Stored(t, page, frame, flags), slots)
      <==> Walk(t, slots[StruckFrame(page)].root, HitPage(slots, page)) == Requested(frame, flags)
  {
    hide Walk;
    LowMapRewritesPage(t, slots, page, frame, flags);
    assert LinkedOk(t, slots, StruckFrame(page));
    PrefixRange(t, slots, StruckFrame(page));
  }

  // ----- Two states the kernel can be in -----

  /** The tables of one address space in otherwise empty memory. */
  function OneSpace(): Tables {
    WithSpace(seq(0x4_0000, _ => EmptyTable()), 256, 257, 258)
  }

  function OneSpaceSlots(): Slots {
    SpaceSlots(map[], 256, 257, 258)
  }

  lemma OneSpaceForest()
    ensures Forest(OneSpace(), OneSpaceSlots()) && IsRoot(OneSpaceSlots(), 256) && |OneSpace()| == 0x4_0000
  {
    var t: Tables := seq(0x4_0000, _ => EmptyTable());
    assert Forest(t, map[]);
    SpaceKeepsForest(t, map[], 256, 257, 258);
  }

  /** Page 0 of a new address space is not given to the user, although the call reports success. */
  lemma LowMapMisses()
    ensures Forest(OneSpace(), OneSpaceSlots()) && StruckFrame(0) < |OneSpace()|
    ensures SameWalks(OneSpace(), Stored(OneSpace(), 0, 300, 6), OneSpaceSlots())
    ensures Walk(Stored(OneSpace(), 0, 300, 6), 256, 0) == Page(0, false, true) != Requested(300, 6)
  {
    hide Walk;
    hide OneSpace;
    OneSpaceForest();
    var t, slots := OneSpace(), OneSpaceSlots();
    OtherFramesKeepWalks(t, Stored(t, 0, 300, 6), slots);
    assert LinkedOk(t, slots, 256);
    LowIdentity(t, slots, 256, 0);
  }

  /** The same space with its first page above one gigabyte prepared: the tables of level 2 and 3 for
      it are frames 259 and 512. */
  function TwoLinks(): Tables
    ensures |TwoLinks()| == 0x4_0000
  {
    WithTable(WithTable(OneSpace(), 257, 1, 259), 259, 0, 512)
  }

  function TwoLinksSlots(): Slots {
    var slots := OneSpaceSlots()[259 := Slot(256, 2, 1, 257)];
    slots[512 := Slot(256, 3, 512, 259)]
  }

  lemma TwoLinksForest()
    ensures Forest(TwoLinks(), TwoLinksSlots())
  {
    OneSpaceForest();
    var t, slots := OneSpace(), OneSpaceSlots();
    assert Linkable(t, slots, 257, 1, 259);
    LinkKeepsForest(t, slots, 257, 1, 259);
    var t', slots' := WithTable(t, 257, 1, 259), slots[259 := Slot(256, 2, 1, 257)];
    assert ChildSlot(slots, 257, 1) == slots'[259];
    assert Linkable(t', slots', 259, 0, 512);
    LinkKeepsForest(t', slots', 259, 0, 512);
    assert ChildSlot(slots', 259, 0) == Slot(256, 3, 512, 259);
  }

  /** Mapping the page at 2 MiB there maps the page at 1 GiB instead. */
  lemma LowMapStrikes()
    ensures Forest(TwoLinks(), TwoLinksSlots()) && StruckFrame(512) == 512
    ensures Walk(TwoLinks(), 256, LOW_PAGES) == Fault
    ensures Walk(Stored(TwoLinks(), 512, 300, 6), 256, LOW_PAGES) == Requested(300, 6)
  {
    TwoLinksForest();
    var t, slots := TwoLinks(), TwoLinksSlots();
    assert t[512] == EmptyTable() && slots[512] == Slot(256, 3, 512, 259) && IsRoot(slots, 256);
    hide TwoLinks;
    hide TwoLinksSlots;
    hide Walk;
    LowMapRewritesPage(t, slots, 512, 300, 6);
    assert LinkedOk(t, slots, 512);
    WalkReaches(t, slots, LOW_PAGES, 512);
    EmptyTableFaults(t, 512, 3, LOW_PAGES, true, true);
  }
}
