/** The physical frame bitmap, its free-page counter and the kernel heap (memory.c). */
module Allocator {
  import opened Collections
  import opened Words
  import opened Memory

  /** One entry of the Multiboot memory map. */
  datatype Region = Region(base: nat, length: nat, available: bool)

  // ----- Which frames a range covers -----

  predicate Within(low: nat, f: nat, high: nat) {
    low <= f < high
  }

  /** The frames `low`, ..., `high - 1`. */
  function Frames(low: nat, high: nat): set<nat> {
    set f: nat | low <= f < high && Within(low, f, high)
  }

  lemma {:induction false} FramesSize(low: nat, high: nat)
    ensures |Frames(low, high)| == if low <= high then high - low else 0
    decreases high
  {
    if low < high {
      FramesSize(low, high - 1);
      assert Frames(low, high) == Frames(low, high - 1) + {high - 1};
    } else {
      assert Frames(low, high) == {};
    }
  }

  lemma PageNumber(n: nat, address: nat)
    requires address == n * 4096
    ensures address / 4096 == n && address + 4096 == (n + 1) * 4096
  {
  }

  /** Frames grows by the frame just past its end. */
  lemma FramesNext(low: nat, n: nat)
    requires low <= n
    ensures Frames(low, n + 1) == Frames(low, n) + {n}
  {
  }

  /** The first page that begins at or behind an address, in 64-bit arithmetic. */
  function PageFrom(address: nat): nat {
    (address + 4095) % WORD / 4096
  }

  function Clamp(frame: nat): nat {
    if frame > FRAME_COUNT then FRAME_COUNT else frame
  }

  /** The whole frames inside a region, in 64-bit arithmetic. */
  function UsableFrames(base: nat, length: nat): set<nat> {
    Frames(PageFrom(base), Clamp((base + length) % WORD / 4096))
  }

  /** The frames touched by `[start, end)`, in 64-bit arithmetic. */
  function ReservedFrames(start: nat, end: nat): set<nat> {
    Frames(start / 4096, Clamp(PageFrom(end)))
  }

  /** The frames one entry of the memory map makes usable. */
  function RegionFrames(region: Region): set<nat> {
    if region.available then UsableFrames(region.base, region.length) else {}
  }

  /** The frames a memory map makes usable. */
  function MapFrames(regions: seq<Region>): set<nat> {
    if regions == [] then {}
    else MapFrames(regions[..|regions| - 1]) + RegionFrames(regions[|regions| - 1])
  }

  /** The number of frames a memory map makes usable, counted region by region. */
  function MapCount(regions: seq<Region>): nat {
    if regions == [] then 0
    else MapCount(regions[..|regions| - 1]) + |RegionFrames(regions[|regions| - 1])|
  }

  /** No frame is usable in two regions. */
  ghost predicate FrameDisjoint(regions: seq<Region>) {
    forall i, j :: 0 <= i < j < |regions| ==> RegionFrames(regions[i]) !! RegionFrames(regions[j])
  }

  /** Two regions that share a frame: the counter ends at four, with three frames free. */
  lemma OverlapCountsTwice()
    ensures var regions := [Region(0x10_0000, 0x2000, true), Region(0x10_1000, 0x2000, true)];
      MapCount(regions) == 4 && |MapFrames(regions)| == 3
  {
    var a, b := Region(0x10_0000, 0x2000, true), Region(0x10_1000, 0x2000, true);
    assert RegionFrames(a) == Frames(256, 258) && RegionFrames(b) == Frames(257, 259);
    assert Frames(256, 258) + Frames(257, 259) == Frames(256, 259);
    FramesSize(256, 258);
    FramesSize(257, 259);
    FramesSize(256, 259);
    hide RegionFrames;
    hide Frames;
    TwoRegions(a, b);
  }

  lemma TwoRegions(a: Region, b: Region)
    ensures MapFrames([a, b]) == RegionFrames(a) + RegionFrames(b)
    ensures MapCount([a, b]) == |RegionFrames(a)| + |RegionFrames(b)|
  {
    hide RegionFrames;
    assert [a, b][..1] == [a] && [a][..0] == [];
    assert MapFrames([a]) == MapFrames([]) + RegionFrames(a) == RegionFrames(a);
    assert MapCount([a]) == MapCount([]) + |RegionFrames(a)|;
  }

  lemma {:induction false} MapFramesMember(regions: seq<Region>, f: nat)
    ensures f in MapFrames(regions) <==> exists i :: 0 <= i < |regions| && f in RegionFrames(regions[i])
  {
    if regions != [] {
      MapFramesMember(regions[..|regions| - 1], f);
    }
  }

  lemma {:induction false} MapCountBound(regions: seq<Region>)
    ensures |MapFrames(regions)| <= MapCount(regions)
    ensures |MapFrames(regions)| == MapCount(regions) <==> FrameDisjoint(regions)
  {
    if regions != [] {
      var n := |regions| - 1;
      MapCountBound(regions[..n]);
      UnionSize(MapFrames(regions[..n]), RegionFrames(regions[n]));
      DisjointLast(regions);
    }
  }

  lemma DisjointLast(regions: seq<Region>)
    requires regions != []
    ensures var n := |regions| - 1;
      FrameDisjoint(regions) <==>
        FrameDisjoint(regions[..n]) && MapFrames(regions[..n]) !! RegionFrames(regions[n])
  {
    var n := |regions| - 1;
    var before := regions[..n];
    if FrameDisjoint(regions) {
      forall f | f in MapFrames(before) ensures f !in RegionFrames(regions[n]) {
        MapFramesMember(before, f);
      }
    }
    if FrameDisjoint(before) && MapFrames(before) !! RegionFrames(regions[n]) {
      forall i | 0 <= i < n ensures RegionFrames(regions[i]) !! RegionFrames(regions[n]) {
        forall f | f in RegionFrames(regions[i]) ensures f in MapFrames(before) {
          assert f in RegionFrames(before[i]);
          MapFramesMember(before, f);
        }
      }
      forall i, j | 0 <= i < j < n ensures RegionFrames(regions[i]) !! RegionFrames(regions[j]) {
        assert RegionFrames(before[i]) !! RegionFrames(before[j]);
      }
    }
  }

  lemma MinusOneMore(a: set<nat>, b: set<nat>, x: nat)
    ensures a - b - {x} == a - (b + {x})
  {
  }

  lemma PlusOneMore(a: set<nat>, b: set<nat>, x: nat)
    ensures a + b + {x} == a + (b + {x})
  {
  }

  class FrameAllocator {
    const bitmap: array<byte>
    var freePages: nat
    var heapNext: nat
    var heapLimit: nat

    ghost function Free(): (frames: set<nat>)
      requires bitmap.Length == BITMAP_SIZE
      reads bitmap
    {
      set f: nat | f < FRAME_COUNT && !IsSet(bitmap[..], f)
    }

    /** The number of clear bits. */
    ghost function Clear(): nat
      reads bitmap
    {
      ClearCount(bitmap[..])
    }

    lemma FreeSize()
      requires bitmap.Length == BITMAP_SIZE
      ensures |Free()| == Clear()
    {
      ClearSetSize(bitmap[..], FRAME_COUNT);
      assert Free() == ClearSet(bitmap[..], FRAME_COUNT);
    }

    lemma NoneFree()
      requires bitmap.Length == BITMAP_SIZE && forall k :: 0 <= k < BITMAP_SIZE ==> bitmap[k] == 255
      ensures Free() == {} && Clear() == 0
    {
      forall f: nat | f < FRAME_COUNT ensures IsSet(bitmap[..], f) {
        AllOnes(f % 8);
      }
      FreeSize();
    }

    /** The counter never falls short of the clear bits, so it cannot wrap below zero. */
    ghost predicate Valid()
      reads this, bitmap
    {
      bitmap.Length == BITMAP_SIZE && Clear() <= freePages && heapNext < WORD && heapLimit < WORD
    }

    method SetFrame(frame: nat)
      requires bitmap.Length == BITMAP_SIZE && frame < FRAME_COUNT
      modifies bitmap
      ensures bitmap[..] == SetBit(old(bitmap[..]), frame)
      ensures Free() == old(Free()) - {frame}
      ensures frame in old(Free()) ==> Clear() == old(Clear()) - 1
    {
      if frame in Free() {
        SetBitCount(bitmap[..], frame);
      }
      bitmap[frame / 8] := RaiseByte(bitmap[frame / 8], frame % 8);
      forall f: nat | f < FRAME_COUNT {
        SetBitSets(old(bitmap[..]), frame, f);
      }
    }

    method ClearFrame(frame: nat)
      requires bitmap.Length == BITMAP_SIZE && frame < FRAME_COUNT
      modifies bitmap
      ensures bitmap[..] == ClearBit(old(bitmap[..]), frame)
      ensures Free() == old(Free()) + {frame}
      ensures Clear() == old(Clear()) + if frame in old(Free()) then 0 else 1
    {
      ClearBitCount(bitmap[..], frame);
      bitmap[frame / 8] := LowerByte(bitmap[frame / 8], frame % 8);
      forall f: nat | f < FRAME_COUNT {
        ClearBitClears(old(bitmap[..]), frame, f);
      }
    }

    /** Clears one bit and counts the frame, as the usable loop does: without testing the bit. */
    method CountFree(frame: nat)
      requires Valid() && frame < FRAME_COUNT
      modifies this`freePages, bitmap
      ensures Valid()
      ensures Free() == old(Free()) + {frame}
      ensures freePages == old(freePages) + 1
    {
      ClearFrame(frame);
      freePages := freePages + 1;
    }

    /** Takes a frame if it is free. */
    method TakeIfFree(frame: nat) returns (taken: bool)
      requires Valid() && frame < FRAME_COUNT
      modifies this`freePages, bitmap
      ensures Valid()
      ensures taken <==> frame in old(Free())
      ensures !taken ==> bitmap[..] == old(bitmap[..])
      ensures taken ==> bitmap[..] == SetBit(old(bitmap[..]), frame)
      ensures Free() == old(Free()) - {frame}
      ensures freePages == old(freePages) - if taken then 1 else 0
      ensures Clear() == old(Clear()) - if taken then 1 else 0
    {
      taken := !Bit(bitmap[frame / 8], frame % 8);
      if taken {
        assert frame in Free();
        SetFrame(frame);
        freePages := freePages - 1;
      }
    }

    /** The loop over the page addresses of a usable region. */
    method CountFreeRange(first: nat, last: nat, ghost low: nat, ghost high: nat)
      requires Valid() && first == low * 4096 && last == high * 4096 && high <= FRAME_COUNT
      modifies this`freePages, bitmap
      ensures Valid()
      ensures Free() == old(Free()) + Frames(low, high)
      ensures freePages == old(freePages) + |Frames(low, high)|
    {
      FramesSize(low, high);
      var address := first;
      ghost var n := low;
      while address < last
        invariant address == n * 4096 && low <= n && (n <= high || n == low)
        invariant Valid()
        invariant Free() == old(Free()) + Frames(low, n)
        invariant freePages == old(freePages) + (n - low)
      {
        PageNumber(n, address);
        FramesNext(low, n);
        PlusOneMore(old(Free()), Frames(low, n), n);
        CountFree(address / 4096);
        n := n + 1;
        address := address + 4096;
      }
      assert n >= high;
      assert Frames(low, n) == Frames(low, high);
    }

    method MarkUsable(base: nat, length: nat)
      requires Valid() && base < WORD && length < WORD
      modifies this`freePages, bitmap
      ensures Valid()
      ensures Free() == old(Free()) + UsableFrames(base, length)
      ensures freePages == old(freePages) + |UsableFrames(base, length)|
    {
      ghost var low, high := PageFrom(base), Clamp((base + length) % WORD / 4096);
      FramesSize(low, high);
      var first := PageFrom(base) * 4096;
      var last := (base + length) % WORD / 4096 * 4096;
      if first >= MAX_MEMORY {
        assert Frames(low, high) == {};
        return;
      }
      if last > MAX_MEMORY {
        last := MAX_MEMORY;
      }
      CountFreeRange(first, last, low, high);
    }

    /** The loop over the page addresses of a reserved range. */
    method TakeRange(first: nat, last: nat, ghost low: nat, ghost high: nat)
      requires Valid() && first == low * 4096 && last == high * 4096 && high <= FRAME_COUNT
      modifies this`freePages, bitmap
      ensures Valid()
      ensures Free() == old(Free()) - Frames(low, high)
      ensures freePages - Clear() == old(freePages - Clear())
    {
      var address := first;
      ghost var n := low;
      while address < last
        invariant address == n * 4096 && low <= n && (n <= high || n == low)
        invariant Valid()
        invariant Free() == old(Free()) - Frames(low, n)
        invariant freePages - Clear() == old(freePages - Clear())
      {
        PageNumber(n, address);
        FramesNext(low, n);
        MinusOneMore(old(Free()), Frames(low, n), n);
        var _ := TakeIfFree(address / 4096);
        n := n + 1;
        address := address + 4096;
      }
      assert n >= high;
      assert Frames(low, n) == Frames(low, high);
    }

    method MarkReserved(start: nat, end: nat)
      requires Valid() && start < WORD && end < WORD
      modifies this`freePages, bitmap
      ensures Valid()
      ensures Free() == old(Free()) - ReservedFrames(start, end)
      ensures freePages - Clear() == old(freePages - Clear())
    {
      ghost var low, high := start / 4096, Clamp(PageFrom(end));
      var first := start / 4096 * 4096;
      var last := PageFrom(end) * 4096;
      if first >= MAX_MEMORY {
        assert Frames(low, high) == {};
        return;
      }
      if last > MAX_MEMORY {
        last := MAX_MEMORY;
      }
      TakeRange(first, last, low, high);
    }

    /** The walk over the entries of the memory map. */
    method MarkMap(regions: seq<Region>)
      requires Valid() && Free() == {} && freePages == 0
      requires forall r :: r in regions ==> r.base < WORD && r.length < WORD
      modifies this`freePages, bitmap
      ensures Valid()
      ensures Free() == MapFrames(regions)
      ensures freePages == Clear() <==> FrameDisjoint(regions)
    {
      for i := 0 to |regions|
        invariant Valid()
        invariant Free() == MapFrames(regions[..i])
        invariant freePages == MapCount(regions[..i])
      {
        assert regions[..i + 1][..i] == regions[..i];
        if regions[i].available {
          MarkUsable(regions[i].base, regions[i].length);
        }
      }
      assert regions[..|regions|] == regions;
      MapCountBound(regions);
      FreeSize();
    }

    /** Start-up: all frames used, then the available regions freed, then the first
        megabyte and the kernel image reserved. The counter is exact precisely when no
        frame is usable in two regions. */
    constructor (hasMap: bool, regions: seq<Region>, kernelStart: nat, kernelEnd: nat)
      requires kernelStart < WORD && kernelEnd + 15 + 0x10_0000 < WORD
      requires forall r :: r in regions ==> r.base < WORD && r.length < WORD
      ensures Valid() && fresh(bitmap)
      ensures Free() == (if hasMap then MapFrames(regions) else {})
                      - ReservedFrames(0, 0x10_0000) - ReservedFrames(kernelStart, kernelEnd)
      ensures freePages == Clear() <==> !hasMap || FrameDisjoint(regions)
      ensures heapNext == (kernelEnd + 15) / 16 * 16 && heapLimit == heapNext + 0x10_0000
    {
      bitmap := new byte[BITMAP_SIZE](_ => 255);
      freePages := 0;
      heapNext, heapLimit := 0, 0;
      new;
      NoneFree();
      if hasMap {
        MarkMap(regions);
      }
      MarkReserved(0, 0x10_0000);
      MarkReserved(kernelStart, kernelEnd);
      heapNext := (kernelEnd + 15) / 16 * 16;
      heapLimit := heapNext + 0x10_0000;
    }

    /** First fit from one megabyte up; zero when every such frame is used. */
    method AllocFrame() returns (address: nat)
      requires Valid()
      modifies this`freePages, bitmap
      ensures Valid()
      ensures address == 0 <==> forall f :: f in old(Free()) ==> f < FIRST_FRAME
      ensures address == 0 ==> bitmap[..] == old(bitmap[..]) && Free() == old(Free()) && freePages == old(freePages)
      ensures address != 0 ==>
        && address % 4096 == 0
        && FIRST_FRAME <= address / 4096 < FRAME_COUNT
        && address / 4096 in old(Free())
        && (forall f :: f in old(Free()) && f < address / 4096 ==> f < FIRST_FRAME)
        && Free() == old(Free()) - {address / 4096}
        && bitmap[..] == SetBit(old(bitmap[..]), address / 4096)
        && freePages == old(freePages) - 1
    {
      var frame := FIRST_FRAME;
      while frame < FRAME_COUNT
        invariant FIRST_FRAME <= frame <= FRAME_COUNT
        invariant Valid() && bitmap[..] == old(bitmap[..]) && Free() == old(Free()) && freePages == old(freePages)
        invariant forall f :: f in Free() && f < frame ==> f < FIRST_FRAME
      {
        var taken := TakeIfFree(frame);
        if taken {
          return frame * 4096;
        }
        frame := frame + 1;
      }
      return 0;
    }

    /** Freeing a frame that is already free, frame address zero or an address past the end does nothing. */
    method FreeFrame(address: nat)
      requires Valid()
      modifies this`freePages, bitmap
      ensures Valid()
      ensures var frame := address / 4096;
        if address == 0 || frame >= FRAME_COUNT || frame in old(Free()) then
          bitmap[..] == old(bitmap[..]) && freePages == old(freePages)
        else
          && Free() == old(Free()) + {frame}
          && bitmap[..] == ClearBit(old(bitmap[..]), frame)
          && freePages == old(freePages) + 1
    {
      var frame := address / 4096;
      if frame >= FRAME_COUNT || address == 0 {
        return;
      }
      if Bit(bitmap[frame / 8], frame % 8) {
        assert frame !in Free();
        ClearFrame(frame);
        freePages := freePages + 1;
      }
    }

    /** What is left of the heap is whole 16-byte units. */
    predicate HeapOk()
      reads this
    {
      HeapRange(heapNext, heapLimit)
    }

    /** The bump allocator behind kernel objects, in 64-bit arithmetic. A size above the heap limit is
        granted, since the subtraction wraps; every other block that is granted ends by the limit. */
    method Kmalloc(size: nat) returns (address: nat)
      requires Valid() && size < WORD
      modifies this`heapNext
      ensures Valid()
      ensures size == 0 ==> address == 0 && heapNext == old(heapNext)
      ensures 0 < size <= heapLimit && old(HeapOk()) ==>
        var aligned := Aligned(size);
        && HeapOk() && size <= aligned < size + 16
        && address == (if old(heapNext) + aligned <= heapLimit then old(heapNext) else 0)
        && heapNext == (if old(heapNext) + aligned <= heapLimit then old(heapNext) + aligned else old(heapNext))
      ensures size > heapLimit && old(HeapOk()) ==>
        && address == old(heapNext) && address + size > heapLimit
        && heapNext == Wrapped(old(heapNext) + Aligned(size))
    {
      if size == 0 {
        return 0;
      }
      BumpSteps(heapNext, heapLimit, size);
      hide Aligned;
      hide HeapRange;
      hide Wrapped;
      if heapNext > Wrapped(heapLimit - Aligned(size)) {
        return 0;
      }
      address := heapNext;
      heapNext := Wrapped(heapNext + Aligned(size));
    }
  }

  // ----- The heap and the free frames -----

  /** The frame shares a byte with the heap of a kernel that ends at `kernelEnd`. */
  predicate HeapFrame(kernelEnd: nat, f: nat) {
    var next := (kernelEnd + 15) / 16 * 16;
    4096 * f < next + 0x10_0000 && next < 4096 * f + 4096
  }

  /** Nothing reserves the heap: one of its frames is free after start-up exactly when a region covers
      it, it is not below one megabyte, and it does not begin inside the kernel. */
  lemma HeapFrameFree(regions: seq<Region>, kernelStart: nat, kernelEnd: nat, f: nat)
    requires kernelStart <= kernelEnd && kernelEnd + 15 + 0x10_0000 < WORD && HeapFrame(kernelEnd, f)
    ensures f in MapFrames(regions) - ReservedFrames(0, 0x10_0000) - ReservedFrames(kernelStart, kernelEnd)
      <==> f >= FIRST_FRAME && 4096 * f >= kernelEnd && exists i :: 0 <= i < |regions| && f in RegionFrames(regions[i])
  {
    hide MapFrames;
    MapFramesMember(regions, f);
  }

  /** The first frame given out and the first object allocated are the same memory. */
  method HeapGivenOut() returns (frame: nat, block: nat)
    ensures frame == block == 0x20_0000
  {
    var regions := [Region(0, 0x1000_0000, true)];
    var a := new FrameAllocator(true, regions, 0x10_0000, 0x20_0000);
    assert regions[..0] == [];
    assert RegionFrames(regions[0]) == Frames(0, 0x1_0000);
    assert MapFrames(regions) == Frames(0, 0x1_0000);
    assert 512 in a.Free();
    assert forall f :: f in a.Free() ==> f >= 512;
    frame := a.AllocFrame();
    block := a.Kmalloc(8);
  }

  /** A request of 16 MiB to the heap of one is granted. */
  method OversizeGranted() returns (address: nat, limit: nat)
    ensures address == 0x20_0000 && limit == 0x30_0000
  {
    var a := new FrameAllocator(false, [], 0x10_0000, 0x20_0000);
    limit := a.heapLimit;
    address := a.Kmalloc(0x100_0000);
  }

  /** A size rounded up to whole 16-byte units, in 64-bit arithmetic. */
  function Aligned(size: nat): nat {
    (size + 15) % WORD / 16 * 16
  }

  /** A difference or a sum in 64 bits. */
  function Wrapped(value: int): nat {
    value % WORD
  }

  predicate HeapRange(next: nat, limit: nat) {
    next % 16 == 0 && limit % 16 == 0 && 0 < next <= limit < WORD - 16
  }

  lemma BumpSteps(next: nat, limit: nat, size: nat)
    requires 0 < size < WORD
    ensures HeapRange(next, limit) && size <= limit ==>
      && size <= Aligned(size) < size + 16
      && (next > Wrapped(limit - Aligned(size)) <==> next + Aligned(size) > limit)
      && (next + Aligned(size) <= limit ==>
            Wrapped(next + Aligned(size)) == next + Aligned(size) && HeapRange(next + Aligned(size), limit))
    ensures HeapRange(next, limit) && size > limit ==> next <= Wrapped(limit - Aligned(size)) && next + size > limit
  {
    HeapSteps(size);
    hide Aligned;
    if HeapRange(next, limit) {
      LimitSteps(limit, Aligned(size), next);
      hide Wrapped;
      UnitSteps(next, limit, Aligned(size));
    }
  }

  lemma UnitSteps(next: nat, limit: nat, aligned: nat)
    requires HeapRange(next, limit) && aligned % 16 == 0
    ensures aligned < limit + 16 ==> aligned <= limit
    ensures next + aligned <= limit ==> HeapRange(next + aligned, limit)
  {
    assert limit == 16 * (limit / 16) && aligned == 16 * (aligned / 16) && next == 16 * (next / 16);
    assert next + aligned == 16 * (next / 16 + aligned / 16);
  }

  lemma HeapSteps(size: nat)
    requires size < WORD
    ensures Aligned(size) % 16 == 0 && Aligned(size) < WORD
    ensures size <= WORD - 16 ==> size <= Aligned(size) < size + 16
  {
  }

  lemma LimitSteps(limit: nat, aligned: nat, next: nat)
    requires limit < WORD && aligned < WORD
    ensures Wrapped(limit - aligned) == if aligned <= limit then limit - aligned else limit - aligned + WORD
    ensures next + aligned < WORD ==> Wrapped(next + aligned) == next + aligned
  {
  }

  lemma AllOnes(k: nat)
    requires k < 8
    ensures Bit(255, k)
  {
    assert Bit(255, 0) && Bit(127, 0) && Bit(63, 0) && Bit(31, 0) && Bit(15, 0) && Bit(7, 0) && Bit(3, 0) && Bit(1, 0);
    assert Bit(255, 1) && Bit(255, 2) && Bit(255, 3);
    assert Bit(15, 1) && Bit(15, 2) && Bit(15, 3) && Bit(31, 4) && Bit(63, 5) && Bit(127, 6);
  }
}
