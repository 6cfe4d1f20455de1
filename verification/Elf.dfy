/** The ELF64 loader of elf.c: header validation, segment mapping, zero fill and copying. */
module Elf {
  import opened Words
  import opened Memory
  import opened Paging
  import opened VirtualMemory

  // ----- The image -----

  function Field(image: seq<byte>, offset: nat, size: nat): nat
    requires offset + size <= |image|
  {
    Decode(image[offset..offset + size])
  }

  /** `offset <= total && length <= total - offset`, without overflow. */
  predicate RangeInside(offset: nat, length: nat, total: nat) {
    offset <= total && length <= total - offset
  }

  predicate HeaderOk(image: seq<byte>) {
    && |image| >= 64
    && image[0] == 0x7F && image[1] == 0x45 && image[2] == 0x4C && image[3] == 0x46
    && image[4] == 2 && image[5] == 1
    && Field(image, 16, 2) == 2 && Field(image, 18, 2) == 62
    && Field(image, 54, 2) == 56
    && RangeInside(Field(image, 32, 8), Field(image, 56, 2) * 56, |image|)
  }

  datatype Segment = Segment(kind: nat, flags: nat, offset: nat, address: nat, fileSize: nat, memorySize: nat)

  function HeaderCount(image: seq<byte>): nat
    requires HeaderOk(image)
  {
    Field(image, 56, 2)
  }

  function ProgramHeader(image: seq<byte>, i: nat): Segment
    requires HeaderOk(image) && i < HeaderCount(image)
  {
    var base := Field(image, 32, 8) + i * 56;
    Segment(Field(image, base, 4), Field(image, base + 4, 4), Field(image, base + 8, 8),
            Field(image, base + 16, 8), Field(image, base + 32, 8), Field(image, base + 40, 8))
  }

  /** The PT_LOAD entries among the first `n` program headers. */
  function Loads(image: seq<byte>, n: nat): seq<Segment>
    requires HeaderOk(image) && n <= HeaderCount(image)
  {
    if n == 0 then []
    else Loads(image, n - 1) + if ProgramHeader(image, n - 1).kind == 1 then [ProgramHeader(image, n - 1)] else []
  }

  predicate SegmentOk(image: seq<byte>, s: Segment) {
    && s.fileSize <= s.memorySize
    && RangeInside(s.offset, s.fileSize, |image|)
    && (s.address + s.memorySize) % WORD >= s.address
  }

  /** At or above the identity-mapped gigabyte and below the end of the 48-bit space. */
  predicate InUserRange(s: Segment) {
    0x4000_0000 <= s.address && s.address + s.memorySize <= 0x1_0000_0000_0000
  }

  function FirstPage(s: Segment): nat {
    s.address / 4096
  }

  function EndPage(s: Segment): nat {
    (s.address + s.memorySize + 0xFFF) % WORD / 4096
  }

  predicate Below(s: Segment, page: nat, end: nat) {
    FirstPage(s) <= page < end
  }

  predicate Covers(s: Segment, page: nat) {
    Below(s, page, EndPage(s))
  }

  /** The pages of a segment before `end`. */
  function UpTo(s: Segment, end: nat): map<nat, Segment> {
    map page: nat | FirstPage(s) <= page < end && Below(s, page, end) :: s
  }

  lemma UpToNext(m: map<nat, Segment>, s: Segment, n: nat)
    requires FirstPage(s) <= n
    ensures (m + UpTo(s, n))[n := s] == m + UpTo(s, n + 1)
  {
  }

  predicate IsWritable(s: Segment) {
    s.flags / 2 % 2 == 1
  }

  /** The byte a segment puts at a virtual address of one of its pages. */
  function SegmentByte(image: seq<byte>, s: Segment, address: nat): byte
    requires SegmentOk(image, s)
  {
    if s.address <= address < s.address + s.fileSize then image[s.offset + (address - s.address)] else 0
  }

  function PageImage(image: seq<byte>, s: Segment, page: nat): seq<byte>
    requires SegmentOk(image, s)
  {
    seq<byte>(4096, (k: nat) => SegmentByte(image, s, 4096 * page + k))
  }

  /** For every page loaded, the segment that provides it: the last one that covers it. */
  function Providers(segments: seq<Segment>): map<nat, Segment> {
    if segments == [] then map[]
    else
      var s := segments[|segments| - 1];
      Providers(segments[..|segments| - 1]) + UpTo(s, EndPage(s))
  }

  lemma {:induction false} ProviderIsLast(segments: seq<Segment>, page: nat)
    ensures page in Providers(segments) <==> exists s :: s in segments && Covers(s, page)
    ensures page in Providers(segments) ==>
      exists k :: 0 <= k < |segments| && Providers(segments)[page] == segments[k] && Covers(segments[k], page)
        && forall j :: k < j < |segments| ==> !Covers(segments[j], page)
  {
    if segments != [] {
      var n := |segments| - 1;
      ProviderIsLast(segments[..n], page);
      if Covers(segments[n], page) {
        assert Providers(segments)[page] == segments[n];
      } else if page in Providers(segments) {
        var k :| 0 <= k < n && Providers(segments[..n])[page] == segments[..n][k] && Covers(segments[..n][k], page)
          && forall j :: k < j < n ==> !Covers(segments[..n][j], page);
        forall j | k < j < |segments| ensures !Covers(segments[j], page) {
          assert j == n || segments[j] == segments[..n][j];
        }
        assert segments[k] == segments[..n][k];
      }
    }
  }

  ghost predicate PageDisjoint(segments: seq<Segment>) {
    forall i, j, page :: 0 <= i < j < |segments| ==> !(Covers(segments[i], page) && Covers(segments[j], page))
  }

  // ----- Loading one page -----

  /** The low bits of the entries for a segment: VM_USER, and VM_WRITABLE when PF_W is set. */
  function EntryFlags(s: Segment): nat {
    if IsWritable(s) then 6 else 4
  }

  lemma PlainRequest(frame: nat, s: Segment)
    requires frame < FRAME_COUNT
    ensures Requested(frame, EntryFlags(s)) == Page(frame, true, IsWritable(s))
  {
  }

  lemma RequestedFlags(physical: nat, s: Segment)
    requires physical / 4096 < FRAME_COUNT
    ensures Requested(EntryFrame(physical, EntryFlags(s)), EntryFlags(s) % 4096) ==
      Page(physical / 4096, true, IsWritable(s))
  {
    PlainRequest(physical / 4096, s);
    OrNone(physical / 4096);
    hide Requested;
    hide Or;
    assert EntryFlags(s) / 4096 == 0 && EntryFlags(s) % 4096 == EntryFlags(s);
  }

  /** Clears a frame and copies into it the file bytes that fall in `[address, address + 4096)`. */
  method FillPage(ram: Ram, frame: nat, image: seq<byte>, s: Segment, address: nat, ghost page: nat)
    requires ram.Valid() && frame < FRAME_COUNT && SegmentOk(image, s) && address == 4096 * page
    modifies ram.bytes
    ensures ram.Page(frame) == PageImage(image, s, page)
    ensures forall f :: 0 <= f < FRAME_COUNT && f != frame ==> ram.Page(f) == old(ram.Page(f))
    ensures forall f :: 0 <= f < FRAME_COUNT && f != frame ==> ram.Tables()[f] == old(ram.Tables())[f]
  {
    ClearPage(ram, frame);
    for b: nat := 0 to s.fileSize
      invariant forall k :: 0 <= k < 4096 ==>
        ram.Page(frame)[k] ==
          if s.address <= address + k < s.address + b then image[s.offset + (address + k - s.address)] else 0
      invariant forall f :: 0 <= f < FRAME_COUNT && f != frame ==> ram.Page(f) == old(ram.Page(f))
      invariant forall f :: 0 <= f < FRAME_COUNT && f != frame ==> ram.Tables()[f] == old(ram.Tables())[f]
    {
      var a := s.address + b;
      if address <= a < address + 4096 {
        InFrame(frame, a - address);
        ram.StoreByte(4096 * frame + (a - address), image[s.offset + b]);
      }
    }
    forall k: nat | k < 4096 ensures ram.Page(frame)[k] == PageImage(image, s, page)[k] {
      assert PageImage(image, s, page)[k] == SegmentByte(image, s, 4096 * page + k);
    }
  }

  lemma InFrame(frame: nat, k: nat)
    requires k < 4096
    ensures (4096 * frame + k) / 4096 == frame && (4096 * frame + k) % 4096 == k
  {
    By4096(4096 * frame + k, frame, k);
  }

  method ClearPage(ram: Ram, frame: nat)
    requires ram.Valid() && frame < FRAME_COUNT
    modifies ram.bytes
    ensures forall k :: 0 <= k < 4096 ==> ram.Page(frame)[k] == 0
    ensures forall f :: 0 <= f < FRAME_COUNT && f != frame ==> ram.Page(f) == old(ram.Page(f))
    ensures forall f :: 0 <= f < FRAME_COUNT && f != frame ==> ram.Tables()[f] == old(ram.Tables())[f]
  {
    for b: nat := 0 to 4096
      invariant forall k :: 0 <= k < b ==> ram.Page(frame)[k] == 0
      invariant forall f :: 0 <= f < FRAME_COUNT && f != frame ==> ram.Page(f) == old(ram.Page(f))
      invariant forall f :: 0 <= f < FRAME_COUNT && f != frame ==> ram.Tables()[f] == old(ram.Tables())[f]
    {
      InFrame(frame, b);
      ram.StoreByte(4096 * frame + b, 0);
    }
  }

  lemma PageOfAddress(address: nat, page: nat)
    requires address == 4096 * page && page < PAGE_COUNT
    ensures address % 4096 == 0 && PageOf(address) == page
  {
    By4096(address, page, 0);
  }

  /** Allocates a frame and maps it at `address`. */
  method MapFresh(vm: Paged, space: AddressSpace, s: Segment, address: nat, ghost page: nat)
    returns (ok: bool, frame: nat)
    requires vm.Valid() && vm.Owns(space) && address == 4096 * page && LOW_PAGES <= page < PAGE_COUNT
    modifies vm`slots, vm.allocator`freePages, vm.allocator.bitmap, vm.ram.bytes
    ensures vm.Valid() && vm.Owns(space) && vm.DataKept()
    ensures vm.Extends(old(vm.slots), old(vm.allocator.Free()), space.root / 4096)
    ensures vm.allocator.Free() <= old(vm.allocator.Free())
    ensures !ok ==> vm.Exhausted() && SameWalks(old(vm.ram.Tables()), vm.ram.Tables(), old(vm.slots))
    ensures ok ==>
      && frame < FRAME_COUNT && frame in old(vm.allocator.Free()) && frame !in vm.allocator.Free() && frame !in vm.slots
      && OneTranslation(old(vm.ram.Tables()), vm.ram.Tables(), old(vm.slots), space.root / 4096,
                        page, Page(frame, true, IsWritable(s)))
  {
    hide Walk;
    hide Ram.Page;
    frame := 0;
    OtherFramesKeepWalks(vm.ram.Tables(), vm.ram.Tables(), vm.slots);
    var physical := vm.allocator.AllocFrame();
    if physical == 0 {
      return false, 0;
    }
    frame := physical / 4096;
    PageOfAddress(address, page);
    ok := vm.MapPage(space, address, physical, EntryFlags(s));
    RequestedFlags(physical, s);
  }

  /** Allocates, maps and fills the page at `address`; the frame it used is `frame`. */
  method LoadPage(vm: Paged, space: AddressSpace, image: seq<byte>, s: Segment, address: nat, ghost page: nat)
    returns (ok: bool, frame: nat)
    requires vm.Valid() && vm.Owns(space) && SegmentOk(image, s)
    requires address == 4096 * page && LOW_PAGES <= page < PAGE_COUNT
    modifies vm`slots, vm.allocator`freePages, vm.allocator.bitmap, vm.ram.bytes
    ensures vm.Valid() && vm.Owns(space) && vm.DataKept()
    ensures vm.Extends(old(vm.slots), old(vm.allocator.Free()), space.root / 4096)
    ensures vm.allocator.Free() <= old(vm.allocator.Free())
    ensures !ok ==> vm.Exhausted() && SameWalks(old(vm.ram.Tables()), vm.ram.Tables(), old(vm.slots))
    ensures ok ==>
      && frame < FRAME_COUNT && frame in old(vm.allocator.Free()) && frame !in vm.allocator.Free() && frame !in vm.slots
      && vm.ram.Page(frame) == PageImage(image, s, page)
      && OneTranslation(old(vm.ram.Tables()), vm.ram.Tables(), old(vm.slots), space.root / 4096,
                        page, Page(frame, true, IsWritable(s)))
  {
    ok, frame := MapFresh(vm, space, s, address, page);
    if !ok {
      return;
    }
    ghost var t := vm.ram.Tables();
    FillPage(vm.ram, frame, image, s, address, page);
    OtherFramesKeepForest(t, vm.ram.Tables(), vm.slots);
    OtherFramesKeepWalks(t, vm.ram.Tables(), vm.slots);
  }

  // ----- Loading the image -----

  /** No two pages share a frame. */
  ghost predicate Apart(frames: map<nat, nat>) {
    forall p: nat, q: nat :: p in frames && q in frames && frames[p] == frames[q] ==> p == q
  }

  /** The pages of `source` are mapped to the frames of `frames`, which hold what their segments say. */
  ghost predicate Holds(vm: Paged, root: nat, image: seq<byte>, frames: map<nat, nat>, source: map<nat, Segment>)
    requires vm.Valid() && root < FRAME_COUNT
    reads vm, vm.allocator, vm.allocator.bitmap, vm.ram.bytes
  {
    && frames.Keys == source.Keys && Apart(frames)
    && forall page: nat :: page in source ==>
      && LOW_PAGES <= page < PAGE_COUNT
      && frames[page] < FRAME_COUNT && frames[page] !in vm.allocator.Free() && frames[page] !in vm.slots
      && SegmentOk(image, source[page])
      && vm.ram.Page(frames[page]) == PageImage(image, source[page], page)
      && Walk(vm.ram.Tables(), root, page) == Page(frames[page], true, IsWritable(source[page]))
  }

  /** Every frame of `frames'` was in `frames` for the same page, or was free. */
  ghost predicate Drawn(frames': map<nat, nat>, frames: map<nat, nat>, free: set<nat>) {
    forall p: nat :: p in frames' ==> frames'[p] in free || (p in frames && frames'[p] == frames[p])
  }

  lemma DrawnTwice(a: map<nat, nat>, b: map<nat, nat>, c: map<nat, nat>, free: set<nat>, less: set<nat>)
    requires Drawn(b, a, free) && Drawn(c, b, less) && less <= free
    ensures Drawn(c, a, free)
  {
  }

  /** Outside the loaded pages of `root` no translation of any address space changed. */
  ghost predicate OnlyAt<T>(t: Tables, t': Tables, slots: Slots, root: nat, loaded: map<nat, T>) {
    |t'| == |t| && forall r: nat, q: nat ::
      IsRoot(slots, r) && r < |t| && q < PAGE_COUNT && !(r == root && q in loaded) ==> Walk(t', r, q) == Walk(t, r, q)
  }

  /** One page more, with the record of what is loaded where. */
  method LoadNext(vm: Paged, space: AddressSpace, image: seq<byte>, s: Segment, address: nat, ghost page: nat,
                  ghost frames: map<nat, nat>, ghost source: map<nat, Segment>)
    returns (ok: bool, ghost frames': map<nat, nat>, ghost source': map<nat, Segment>)
    requires vm.Valid() && vm.Owns(space) && SegmentOk(image, s)
    requires address == 4096 * page && LOW_PAGES <= page < PAGE_COUNT
    requires Holds(vm, space.root / 4096, image, frames, source)
    modifies vm`slots, vm.allocator`freePages, vm.allocator.bitmap, vm.ram.bytes
    ensures vm.Valid() && vm.Owns(space) && vm.DataKept()
    ensures vm.Extends(old(vm.slots), old(vm.allocator.Free()), space.root / 4096)
    ensures vm.allocator.Free() <= old(vm.allocator.Free())
    ensures Holds(vm, space.root / 4096, image, frames', source') && Drawn(frames', frames, old(vm.allocator.Free()))
    ensures OnlyAt(old(vm.ram.Tables()), vm.ram.Tables(), old(vm.slots), space.root / 4096, map[page := s])
    ensures !ok ==> vm.Exhausted() && source' == source
    ensures ok ==> source' == source[page := s]
  {
    hide Walk;
    hide Forest;
    hide Ram.Page;
    hide vm.allocator.Free;
    frames', source' := frames, source;
    var frame;
    ok, frame := LoadPage(vm, space, image, s, address, page);
    if ok {
      frames', source' := frames[page := frame], source[page := s];
    }
  }

  lemma OnlyAtNext(t0: Tables, t1: Tables, t2: Tables, slots0: Slots, slots1: Slots, root: nat, s: Segment, n: nat)
    requires OnlyAt(t0, t1, slots0, root, UpTo(s, n)) && OnlyAt(t1, t2, slots1, root, map[n := s])
    requires forall f :: f in slots0 ==> f in slots1 && slots1[f] == slots0[f]
    requires FirstPage(s) <= n
    ensures OnlyAt(t0, t2, slots0, root, UpTo(s, n + 1))
  {
    UpToNext(map[], s, n);
  }

  lemma UpToPast(s: Segment, n: nat, end: nat)
    requires end <= n <= FirstPage(s) || n == end
    ensures UpTo(s, n) == UpTo(s, end)
  {
  }

  lemma PageStep(address: nat, n: nat, last: nat, end: nat)
    requires address == 4096 * n && last == 4096 * end
    ensures address + 4096 == 4096 * (n + 1)
    ensures address < last <==> n < end
  {
  }

  lemma NothingYet(t: Tables, slots: Slots, root: nat, s: Segment, source: map<nat, Segment>)
    ensures OnlyAt(t, t, slots, root, UpTo(s, FirstPage(s)))
    ensures source + UpTo(s, FirstPage(s)) == source
  {
  }

  /** The loop over the pages of a segment. */
  method LoadPages(vm: Paged, space: AddressSpace, image: seq<byte>, s: Segment, first: nat, last: nat, ghost end: nat,
                   ghost frames: map<nat, nat>, ghost source: map<nat, Segment>)
    returns (ok: bool, ghost frames': map<nat, nat>, ghost source': map<nat, Segment>)
    requires vm.Valid() && vm.Owns(space) && SegmentOk(image, s)
    requires first == 4096 * FirstPage(s) && last == 4096 * end && LOW_PAGES <= FirstPage(s) && end <= PAGE_COUNT
    requires Holds(vm, space.root / 4096, image, frames, source)
    modifies vm`slots, vm.allocator`freePages, vm.allocator.bitmap, vm.ram.bytes
    ensures vm.Valid() && vm.Owns(space) && vm.DataKept()
    ensures vm.Extends(old(vm.slots), old(vm.allocator.Free()), space.root / 4096)
    ensures vm.allocator.Free() <= old(vm.allocator.Free())
    ensures Holds(vm, space.root / 4096, image, frames', source') && Drawn(frames', frames, old(vm.allocator.Free()))
    ensures OnlyAt(old(vm.ram.Tables()), vm.ram.Tables(), old(vm.slots), space.root / 4096, UpTo(s, end))
    ensures ok ==> source' == source + UpTo(s, end)
    ensures !ok ==> vm.Exhausted()
  {
    hide Walk;
    hide Forest;
    hide Ram.Page;
    hide vm.allocator.Free;
    hide Holds;
    hide OnlyAt;
    hide UpTo;
    hide vm.ram.Tables;
    hide SegmentOk;
    DrawnTwice(frames, frames, frames, vm.allocator.Free(), vm.allocator.Free());
    hide Drawn;
    ghost var root, t0, slots0 := space.root / 4096, vm.ram.Tables(), vm.slots;
    frames', source', ok := frames, source, true;
    var address := first;
    ghost var n := FirstPage(s);
    NothingYet(t0, slots0, root, s, source);
    PageStep(address, n, last, end);
    while address < last
      invariant address == 4096 * n && FirstPage(s) <= n && (address < last <==> n < end)
      invariant n <= end || n == FirstPage(s)
      invariant vm.Valid() && vm.Owns(space) && vm.DataKept()
      invariant vm.Extends(slots0, old(vm.allocator.Free()), root)
      invariant vm.allocator.Free() <= old(vm.allocator.Free())
      invariant Holds(vm, root, image, frames', source') && Drawn(frames', frames, old(vm.allocator.Free()))
      invariant OnlyAt(t0, vm.ram.Tables(), slots0, root, UpTo(s, n))
      invariant source' == source + UpTo(s, n)
    {
      ghost var t1, slots1, frames1, free1 := vm.ram.Tables(), vm.slots, frames', vm.allocator.Free();
      ok, frames', source' := LoadNext(vm, space, image, s, address, n, frames', source');
      DrawnTwice(frames, frames1, frames', old(vm.allocator.Free()), free1);
      OnlyAtNext(t0, t1, vm.ram.Tables(), slots0, slots1, root, s, n);
      if !ok {
        OnlyAtMore(t0, vm.ram.Tables(), slots0, root, s, n + 1, end);
        return;
      }
      UpToNext(source, s, n);
      PageStep(address, n, last, end);
      PageStep(address + 4096, n + 1, last, end);
      address := address + 4096;
      n := n + 1;
    }
    UpToPast(s, n, end);
  }

  method LoadSegment(vm: Paged, space: AddressSpace, image: seq<byte>, s: Segment,
                     ghost frames: map<nat, nat>, ghost source: map<nat, Segment>)
    returns (ok: bool, ghost frames': map<nat, nat>, ghost source': map<nat, Segment>)
    requires vm.Valid() && vm.Owns(space) && SegmentOk(image, s) && InUserRange(s)
    requires Holds(vm, space.root / 4096, image, frames, source)
    modifies vm`slots, vm.allocator`freePages, vm.allocator.bitmap, vm.ram.bytes
    ensures vm.Valid() && vm.Owns(space) && vm.DataKept()
    ensures vm.Extends(old(vm.slots), old(vm.allocator.Free()), space.root / 4096)
    ensures vm.allocator.Free() <= old(vm.allocator.Free())
    ensures Holds(vm, space.root / 4096, image, frames', source') && Drawn(frames', frames, old(vm.allocator.Free()))
    ensures OnlyAt(old(vm.ram.Tables()), vm.ram.Tables(), old(vm.slots), space.root / 4096, UpTo(s, EndPage(s)))
    ensures ok ==> source' == source + UpTo(s, EndPage(s))
    ensures !ok ==> vm.Exhausted()
  {
    hide Walk;
    hide Forest;
    hide Ram.Page;
    hide vm.allocator.Free;
    var first := s.address / 4096 * 4096;
    var last := (s.address + s.memorySize + 0xFFF) % WORD / 4096 * 4096;
    SegmentRange(s);
    ok, frames', source' := LoadPages(vm, space, image, s, first, last, EndPage(s), frames, source);
  }

  lemma OnlyAtMore(t: Tables, t': Tables, slots: Slots, root: nat, s: Segment, n: nat, end: nat)
    requires OnlyAt(t, t', slots, root, UpTo(s, n)) && n <= end
    ensures OnlyAt(t, t', slots, root, UpTo(s, end))
  {
    forall q: nat | q !in UpTo(s, end) ensures q !in UpTo(s, n) {
      if q in UpTo(s, n) {
        assert Below(s, q, end);
      }
    }
  }

  lemma SegmentRange(s: Segment)
    requires InUserRange(s)
    ensures LOW_PAGES <= FirstPage(s) && EndPage(s) <= PAGE_COUNT
    ensures EndPage(s) == (s.address + s.memorySize + 0xFFF) / 4096
  {
  }

  /** Every loadable segment passes the loader's checks. */
  ghost predicate SegmentsOk(image: seq<byte>)
    requires HeaderOk(image)
  {
    HeadersOk(image, HeaderCount(image))
  }

  /** The same for the first `n` headers. */
  ghost predicate HeadersOk(image: seq<byte>, n: nat)
    requires HeaderOk(image) && n <= HeaderCount(image)
  {
    forall i: nat :: i < n && ProgramHeader(image, i).kind == 1 ==> SegmentOk(image, ProgramHeader(image, i))
  }

  lemma HeadersOkNext(image: seq<byte>, n: nat)
    requires HeaderOk(image) && n < HeaderCount(image) && HeadersOk(image, n)
    ensures var p := ProgramHeader(image, n);
      if p.kind == 1 && !SegmentOk(image, p) then !SegmentsOk(image) else HeadersOk(image, n + 1)
  {
  }

  /** Every segment the loader would map lies where the identity map is not. */
  ghost predicate AboveLowMemory(image: seq<byte>) {
    HeaderOk(image) ==>
      forall i: nat ::
        i < HeaderCount(image) && ProgramHeader(image, i).kind == 1 && SegmentOk(image, ProgramHeader(image, i)) ==>
        InUserRange(ProgramHeader(image, i))
  }

  lemma LoadableInRange(image: seq<byte>, i: nat)
    requires AboveLowMemory(image) && HeaderOk(image) && i < HeaderCount(image)
    requires ProgramHeader(image, i).kind == 1 && SegmentOk(image, ProgramHeader(image, i))
    ensures InUserRange(ProgramHeader(image, i))
  {
  }

  lemma NoHeadersYet(image: seq<byte>)
    requires HeaderOk(image)
    ensures HeadersOk(image, 0)
  {
  }

  /** The segments to load, in file order. */
  function AllLoads(image: seq<byte>): seq<Segment>
    requires HeaderOk(image)
  {
    Loads(image, HeaderCount(image))
  }

  lemma ProvidersNext(segments: seq<Segment>, s: Segment)
    ensures Providers(segments + [s]) == Providers(segments) + UpTo(s, EndPage(s))
  {
    assert (segments + [s])[..|segments|] == segments;
  }

  lemma LoadsNext(image: seq<byte>, n: nat)
    requires HeaderOk(image) && n < HeaderCount(image)
    ensures Loads(image, n + 1)
         == if ProgramHeader(image, n).kind == 1 then Loads(image, n) + [ProgramHeader(image, n)] else Loads(image, n)
  {
  }

  lemma {:induction false} ProvidersGrow(image: seq<byte>, n: nat, page: nat)
    requires HeaderOk(image) && n <= HeaderCount(image)
    requires page in Providers(Loads(image, n))
    ensures page in Providers(AllLoads(image))
    decreases HeaderCount(image) - n
  {
    hide HeaderOk;
    hide ProgramHeader;
    hide UpTo;
    hide Loads;
    hide Providers;
    if n < HeaderCount(image) {
      LoadsNext(image, n);
      ProvidersNext(Loads(image, n), ProgramHeader(image, n));
      ProvidersGrow(image, n + 1, page);
    }
  }

  lemma NoneDrawn(free: set<nat>)
    ensures Drawn(map[], map[], free)
  {
  }

  lemma NothingLoaded(vm: Paged, root: nat, image: seq<byte>)
    requires vm.Valid() && root < FRAME_COUNT
    ensures Holds(vm, root, image, map[], Providers([]))
    ensures OnlyAt(vm.ram.Tables(), vm.ram.Tables(), vm.slots, root, Providers([]))
  {
  }

  lemma OnlyAtTwice(t0: Tables, t1: Tables, t2: Tables, slots0: Slots, slots1: Slots, root: nat,
                    before: map<nat, Segment>, s: Segment)
    requires OnlyAt(t0, t1, slots0, root, before) && OnlyAt(t1, t2, slots1, root, UpTo(s, EndPage(s)))
    requires forall f :: f in slots0 ==> f in slots1 && slots1[f] == slots0[f]
    ensures OnlyAt(t0, t2, slots0, root, before + UpTo(s, EndPage(s)))
  {
  }

  lemma OnlyAtAll(t: Tables, t': Tables, slots: Slots, root: nat, image: seq<byte>, n: nat)
    requires HeaderOk(image) && n <= HeaderCount(image)
    requires OnlyAt(t, t', slots, root, Providers(Loads(image, n)))
    ensures OnlyAt(t, t', slots, root, Providers(AllLoads(image)))
  {
    forall q: nat | q in Providers(Loads(image, n)) {
      ProvidersGrow(image, n, q);
    }
  }

  /** What holds when the first `n` program headers have been gone through. */
  ghost predicate SoFar(vm: Paged, root: nat, image: seq<byte>, frames: map<nat, nat>, n: nat,
                        t0: Tables, slots0: Slots, free0: set<nat>)
    requires vm.Valid() && root < FRAME_COUNT && HeaderOk(image) && n <= HeaderCount(image)
    reads vm, vm.allocator, vm.allocator.bitmap, vm.ram.bytes
  {
    && Holds(vm, root, image, frames, Providers(Loads(image, n))) && Drawn(frames, map[], free0)
    && OnlyAt(t0, vm.ram.Tables(), slots0, root, Providers(Loads(image, n)))
    && HeadersOk(image, n)
  }

  lemma NothingYetLoaded(vm: Paged, root: nat, image: seq<byte>)
    requires vm.Valid() && root < FRAME_COUNT && HeaderOk(image)
    ensures SoFar(vm, root, image, map[], 0, vm.ram.Tables(), vm.slots, vm.allocator.Free())
  {
    NoHeadersYet(image);
    NoneDrawn(vm.allocator.Free());
    NothingLoaded(vm, root, image);
  }

  lemma AllLoaded(vm: Paged, root: nat, image: seq<byte>, frames: map<nat, nat>, t0: Tables, slots0: Slots,
      free0: set<nat>)
    requires vm.Valid() && root < FRAME_COUNT && HeaderOk(image)
    requires SoFar(vm, root, image, frames, HeaderCount(image), t0, slots0, free0)
    ensures Holds(vm, root, image, frames, Providers(AllLoads(image))) && Drawn(frames, map[], free0)
    ensures OnlyAt(t0, vm.ram.Tables(), slots0, root, Providers(AllLoads(image))) && SegmentsOk(image)
  {
  }

  /** One turn of the loop over the program headers. */
  method LoadHeader(vm: Paged, space: AddressSpace, image: seq<byte>, index: nat, ghost frames: map<nat, nat>,
                    ghost t0: Tables, ghost slots0: Slots, ghost free0: set<nat>)
    returns (done: bool, ghost frames': map<nat, nat>)
    requires vm.Valid() && vm.Owns(space) && AboveLowMemory(image) && HeaderOk(image) && index < HeaderCount(image)
    requires vm.Extends(slots0, free0, space.root / 4096) && vm.allocator.Free() <= free0
    requires SoFar(vm, space.root / 4096, image, frames, index, t0, slots0, free0)
    modifies vm`slots, vm.allocator`freePages, vm.allocator.bitmap, vm.ram.bytes
    ensures vm.Valid() && vm.Owns(space) && vm.DataKept()
    ensures vm.Extends(old(vm.slots), old(vm.allocator.Free()), space.root / 4096)
    ensures vm.allocator.Free() <= old(vm.allocator.Free())
    ensures done ==> SoFar(vm, space.root / 4096, image, frames', index + 1, t0, slots0, free0)
    ensures !done ==> OnlyAt(t0, vm.ram.Tables(), slots0, space.root / 4096, Providers(AllLoads(image)))
    ensures !done ==> !SegmentsOk(image) || vm.Exhausted()
  {
    hide Decode;
    hide Holds;
    hide OnlyAt;
    hide UpTo;
    hide Providers;
    hide Walk;
    hide Forest;
    hide Ram.Page;
    hide vm.allocator.Free;
    hide SegmentOk;
    hide ProgramHeader;
    hide AboveLowMemory;
    hide Drawn;
    hide HeadersOk;
    hide HeaderOk;
    frames' := frames;
    ghost var root := space.root / 4096;
    HeadersOkNext(image, index);
    LoadsNext(image, index);
    var program := ProgramHeader(image, index);
    if program.kind != 1 {
      return true, frames;
    }
    if !SegmentOk(image, program) {
      OnlyAtAll(t0, vm.ram.Tables(), slots0, root, image, index);
      return false, frames;
    }
    LoadableInRange(image, index);
    ghost var t1, slots1, free1 := vm.ram.Tables(), vm.slots, vm.allocator.Free();
    ghost var source;
    ProvidersNext(Loads(image, index), program);
    done, frames', source := LoadSegment(vm, space, image, program, frames, Providers(Loads(image, index)));
    OnlyAtTwice(t0, t1, vm.ram.Tables(), slots0, slots1, root, Providers(Loads(image, index)), program);
    DrawnTwice(map[], frames, frames', free0, free1);
    if !done {
      OnlyAtAll(t0, vm.ram.Tables(), slots0, root, image, index + 1);
    }
  }

  /** Loads an executable image into an address space. On success every page of every segment
      is mapped, user-accessible and writable exactly when the segment that provides it asks for
      it, and holds that segment's bytes; no other translation changes, whether or not it succeeds. */
  method ElfLoad(vm: Paged, space: AddressSpace?, image: seq<byte>)
    returns (ok: bool, entry: nat, ghost frames: map<nat, nat>)
    requires vm.Valid() && (space != null ==> vm.Owns(space)) && AboveLowMemory(image)
    modifies vm`slots, vm.allocator`freePages, vm.allocator.bitmap, vm.ram.bytes
    ensures vm.Valid() && vm.DataKept() && (space != null ==> vm.Owns(space))
    ensures vm.allocator.Free() <= old(vm.allocator.Free())
    ensures space != null && HeaderOk(image) ==>
      && vm.Extends(old(vm.slots), old(vm.allocator.Free()), space.root / 4096)
      && OnlyAt(old(vm.ram.Tables()), vm.ram.Tables(), old(vm.slots), space.root / 4096, Providers(AllLoads(image)))
    ensures ok ==> space != null && HeaderOk(image) && SegmentsOk(image) && AllLoads(image) != []
    ensures ok ==> entry == Field(image, 24, 8)
    ensures ok ==> Holds(vm, space.root / 4096, image, frames, Providers(AllLoads(image)))
    ensures ok ==> Drawn(frames, map[], old(vm.allocator.Free()))
    ensures space == null || !HeaderOk(image) ==>
      vm.ram.Tables() == old(vm.ram.Tables()) && vm.slots == old(vm.slots) &&
        vm.allocator.Free() == old(vm.allocator.Free())
    ensures !ok ==> space == null || !HeaderOk(image) || !SegmentsOk(image) || AllLoads(image) == [] || vm.Exhausted()
  {
    hide Decode;
    hide Providers;
    hide Walk;
    hide Forest;
    hide Ram.Page;
    hide vm.allocator.Free;
    hide SoFar;
    ok, entry, frames := false, 0, map[];
    if space == null || !HeaderOk(image) {
      return;
    }
    hide HeaderOk;
    hide AboveLowMemory;
    ghost var root, t0, slots0, free0 := space.root / 4096, vm.ram.Tables(), vm.slots, vm.allocator.Free();
    NothingYetLoaded(vm, root, image);
    var loaded := false;
    for index: nat := 0 to HeaderCount(image)
      invariant vm.Valid() && vm.Owns(space) && vm.DataKept()
      invariant vm.Extends(slots0, free0, root) && vm.allocator.Free() <= free0
      invariant SoFar(vm, root, image, frames, index, t0, slots0, free0)
      invariant loaded <==> Loads(image, index) != []
    {
      LoadsNext(image, index);
      var done;
      done, frames := LoadHeader(vm, space, image, index, frames, t0, slots0, free0);
      if !done {
        return;
      }
      loaded := loaded || ProgramHeader(image, index).kind == 1;
    }
    AllLoaded(vm, root, image, frames, t0, slots0, free0);
    ok := loaded;
    if loaded {
      entry := Field(image, 24, 8);
    }
  }

  /** Loading into one address space leaves what is loaded in another as it was, in frames of its own. */
  method ElfLoadBeside(vm: Paged, other: AddressSpace, otherImage: seq<byte>, ghost otherFrames: map<nat, nat>,
                       space: AddressSpace, image: seq<byte>)
    returns (ok: bool, entry: nat, ghost frames: map<nat, nat>)
    requires vm.Valid() && vm.Owns(other) && vm.Owns(space) && other.root != space.root
    requires other.root / 4096 < FRAME_COUNT && HeaderOk(otherImage) && AboveLowMemory(image)
    requires Holds(vm, other.root / 4096, otherImage, otherFrames, Providers(AllLoads(otherImage)))
    modifies vm`slots, vm.allocator`freePages, vm.allocator.bitmap, vm.ram.bytes
    ensures vm.Valid() && vm.Owns(other) && vm.Owns(space) && other.root / 4096 < FRAME_COUNT
    ensures Holds(vm, other.root / 4096, otherImage, otherFrames, Providers(AllLoads(otherImage)))
    ensures ok ==> HeaderOk(image) && Holds(vm, space.root / 4096, image, frames, Providers(AllLoads(image)))
    ensures ok ==> frames.Values !! otherFrames.Values
  {
    hide Walk;
    hide Forest;
    hide Ram.Page;
    hide vm.allocator.Free;
    hide Providers;
    hide AllLoads;
    hide HeaderOk;
    hide SegmentOk;
    hide PageImage;
    hide AboveLowMemory;
    hide SegmentsOk;
    ok, entry, frames := ElfLoad(vm, space, image);
  }

  // ----- What a loaded image looks like -----

  /** The byte at a loaded address is the one its last covering segment puts there. */
  lemma LoadedByte(image: seq<byte>, k: nat, address: nat)
    requires HeaderOk(image) && SegmentsOk(image) && k < |AllLoads(image)|
    requires Covers(AllLoads(image)[k], address / 4096)
    requires forall j :: k < j < |AllLoads(image)| ==> !Covers(AllLoads(image)[j], address / 4096)
    ensures SegmentOk(image, AllLoads(image)[k])
    ensures address / 4096 in Providers(AllLoads(image))
    ensures PageImage(image, AllLoads(image)[k], address / 4096)[address % 4096] ==
      SegmentByte(image, AllLoads(image)[k], address)
    ensures Providers(AllLoads(image))[address / 4096] == AllLoads(image)[k]
  {
    hide HeaderOk;
    hide ProgramHeader;
    hide Loads;
    var segments, page := AllLoads(image), address / 4096;
    LoadsOk(image, HeaderCount(image), k);
    LastCovering(segments, k, page);
    hide Providers;
    hide Covers;
    assert 4096 * page + address % 4096 == address;
  }

  lemma LastCovering(segments: seq<Segment>, k: nat, page: nat)
    requires k < |segments| && Covers(segments[k], page)
    requires forall j :: k < j < |segments| ==> !Covers(segments[j], page)
    ensures page in Providers(segments) && Providers(segments)[page] == segments[k]
  {
    hide Providers;
    hide Covers;
    ProviderIsLast(segments, page);
    var l :| 0 <= l < |segments| && Providers(segments)[page] == segments[l] && Covers(segments[l], page)
      && forall j :: l < j < |segments| ==> !Covers(segments[j], page);
    assert l == k;
  }

  lemma {:induction false} LoadsOk(image: seq<byte>, n: nat, k: nat)
    requires HeaderOk(image) && SegmentsOk(image) && n <= HeaderCount(image) && k < |Loads(image, n)|
    ensures SegmentOk(image, Loads(image, n)[k])
  {
    hide HeaderOk;
    hide ProgramHeader;
    hide SegmentOk;
    if k < |Loads(image, n - 1)| {
      LoadsOk(image, n - 1, k);
    }
  }

  /** With page-disjoint segments above low memory, every byte of every segment comes out as the
      file has it, and zero past the file's part. */
  lemma DisjointSegmentBytes(image: seq<byte>, k: nat, i: nat)
    requires HeaderOk(image) && SegmentsOk(image) && k < |AllLoads(image)|
    requires PageDisjoint(AllLoads(image)) && InUserRange(AllLoads(image)[k])
    requires i < AllLoads(image)[k].memorySize
    ensures var s := AllLoads(image)[k];
      var page := (s.address + i) / 4096;
      && page in Providers(AllLoads(image)) && Providers(AllLoads(image))[page] == s && SegmentOk(image, s)
      && PageImage(image, s, page)[(s.address + i) % 4096] == if i < s.fileSize then image[s.offset + i] else 0
  {
    hide HeaderOk;
    hide ProgramHeader;
    hide Loads;
    hide Providers;
    var s := AllLoads(image)[k];
    var page := (s.address + i) / 4096;
    SegmentRange(s);
    assert Covers(s, page);
    LoadsOk(image, HeaderCount(image), k);
    LoadedByte(image, k, s.address + i);
  }

  /** Byte `i` of a segment lies where the page tables lead a program that uses its address, with
      the file's value or zero past the file's part; the program may write there exactly when the
      segment says so. */
  ghost predicate InMemory(vm: Paged, root: nat, image: seq<byte>, s: Segment, i: nat)
    requires vm.Valid() && root < FRAME_COUNT && SegmentOk(image, s)
    reads vm, vm.allocator, vm.allocator.bitmap, vm.ram.bytes
  {
    var walk := Walk(vm.ram.Tables(), root, (s.address + i) / 4096);
    && walk.Page? && walk.user && (walk.writable <==> IsWritable(s)) && walk.frame < FRAME_COUNT
    && vm.ram.Page(walk.frame)[(s.address + i) % 4096] == if i < s.fileSize then image[s.offset + i] else 0
  }

  /** After a successful load of an image whose segments share no page, every byte of every segment
      is in memory where the address space says. */
  lemma SegmentInMemory(vm: Paged, root: nat, image: seq<byte>, frames: map<nat, nat>, k: nat, i: nat)
    requires vm.Valid() && root < FRAME_COUNT && HeaderOk(image) && SegmentsOk(image) && k < |AllLoads(image)|
    requires Holds(vm, root, image, frames, Providers(AllLoads(image)))
    requires PageDisjoint(AllLoads(image)) && InUserRange(AllLoads(image)[k]) && i < AllLoads(image)[k].memorySize
    ensures SegmentOk(image, AllLoads(image)[k]) && InMemory(vm, root, image, AllLoads(image)[k], i)
  {
    hide HeaderOk;
    hide ProgramHeader;
    hide Loads;
    hide Providers;
    hide Walk;
    hide SegmentsOk;
    DisjointSegmentBytes(image, k, i);
    var s := AllLoads(image)[k];
    hide AllLoads;
    hide PageImage;
    hide SegmentOk;
    assert frames[(s.address + i) / 4096] < FRAME_COUNT;
  }

  /** Where segments share a page the last one wins: a byte of segment `k` survives there exactly
      when the last segment's own file part has that byte, or has nothing there and the byte is zero. */
  lemma SharedPageByte(image: seq<byte>, k: nat, last: nat, address: nat)
    requires HeaderOk(image) && SegmentsOk(image) && k < last < |AllLoads(image)|
    requires Covers(AllLoads(image)[k], address / 4096) && Covers(AllLoads(image)[last], address / 4096)
    requires forall j :: last < j < |AllLoads(image)| ==> !Covers(AllLoads(image)[j], address / 4096)
    ensures var s, page := AllLoads(image)[last], address / 4096;
      && page in Providers(AllLoads(image)) && Providers(AllLoads(image))[page] == s
      && SegmentOk(image, AllLoads(image)[k]) && SegmentOk(image, s)
      && var expected := SegmentByte(image, AllLoads(image)[k], address);
         PageImage(image, s, page)[address % 4096] == expected
         <==> if s.address <= address < s.address + s.fileSize then image[s.offset + (address - s.address)] == expected
              else expected == 0
  {
    hide HeaderOk;
    hide ProgramHeader;
    hide Loads;
    hide Providers;
    LoadsOk(image, HeaderCount(image), k);
    LoadedByte(image, last, address);
  }

  /** The rights of a shared page are those the last segment asks for: an earlier writable segment
      loses write access there exactly when the last one does not ask for it. */
  lemma SharedPageRights(vm: Paged, root: nat, image: seq<byte>, frames: map<nat, nat>, k: nat, last: nat, page: nat)
    requires vm.Valid() && root < FRAME_COUNT && HeaderOk(image) && k < last < |AllLoads(image)|
    requires Holds(vm, root, image, frames, Providers(AllLoads(image)))
    requires Covers(AllLoads(image)[k], page) && Covers(AllLoads(image)[last], page)
    requires forall j :: last < j < |AllLoads(image)| ==> !Covers(AllLoads(image)[j], page)
    ensures page in frames &&
      Walk(vm.ram.Tables(), root, page) == Page(frames[page], true, IsWritable(AllLoads(image)[last]))
  {
    hide HeaderOk;
    hide ProgramHeader;
    hide Loads;
    hide Walk;
    hide PageImage;
    hide SegmentOk;
    hide Covers;
    LastProvides(AllLoads(image), last, page);
    hide Providers;
  }

  lemma LastProvides(segments: seq<Segment>, last: nat, page: nat)
    requires last < |segments| && Covers(segments[last], page)
    requires forall j :: last < j < |segments| ==> !Covers(segments[j], page)
    ensures page in Providers(segments) && Providers(segments)[page] == segments[last]
  {
    ProviderIsLast(segments, page);
    var l :| 0 <= l < |segments| && Providers(segments)[page] == segments[l] && Covers(segments[l], page)
      && forall j :: l < j < |segments| ==> !Covers(segments[j], page);
    assert l == last;
  }
}
