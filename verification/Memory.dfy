/** Physical memory and the frame allocator of memory.c. */
module Memory {
  import opened Words
  import opened Paging

  const MAX_MEMORY := 0x4000_0000
  const FRAME_COUNT := 0x4_0000
  const BITMAP_SIZE := 0x8000
  const FIRST_FRAME := 256

  // ----- Physical memory -----

  function TableAt(m: seq<byte>, frame: nat): Table
    requires 4096 * frame + 4096 <= |m|
  {
    seq(512, (i: nat) requires i < 512 => Decode(m[4096 * frame + 8 * i..4096 * frame + 8 * i + 8]))
  }

  /** The frames of a memory image, read as tables of 64-bit entries. */
  function TablesOf(m: seq<byte>): (t: Tables)
    requires |m| % 4096 == 0
    ensures |t| == |m| / 4096
  {
    seq(|m| / 4096, (f: nat) requires f < |m| / 4096 => TableAt(m, f))
  }

  lemma SameFrameSameTable(m: seq<byte>, m': seq<byte>, frame: nat)
    requires |m| == |m'| && 4096 * frame + 4096 <= |m|
    requires forall a :: 4096 * frame <= a < 4096 * frame + 4096 ==> m'[a] == m[a]
    ensures TableAt(m', frame) == TableAt(m, frame)
  {
    forall i: nat | i < 512
      ensures TableAt(m', frame)[i] == TableAt(m, frame)[i]
    {
      var a := 4096 * frame + 8 * i;
      assert m'[a..a + 8] == m[a..a + 8];
    }
  }

  /** The memory image after a 64-bit store. */
  function Stored(m: seq<byte>, address: nat, value: nat): seq<byte>
    requires address + 8 <= |m|
  {
    m[..address] + Encode(value, 8) + m[address + 8..]
  }

  /** A 64-bit store changes one entry of one table. */
  lemma StoreChangesOneEntry(m: seq<byte>, frame: nat, i: nat, value: nat)
    requires |m| % 4096 == 0 && frame < |m| / 4096 && i < 512 && value < WORD
    ensures var t := TablesOf(m);
      TablesOf(Stored(m, 4096 * frame + 8 * i, value)) == t[frame := t[frame][i := value]]
  {
    var address := 4096 * frame + 8 * i;
    var m' := Stored(m, address, value);
    var t, t' := TablesOf(m), TablesOf(m');
    forall f: nat | f < |m| / 4096 && f != frame ensures t'[f] == t[f] {
      SameFrameSameTable(m, m', f);
    }
    forall j: nat | j < 512
      ensures t'[frame][j] == if j == i then value else t[frame][j]
    {
      var a := 4096 * frame + 8 * j;
      if j == i {
        assert m'[a..a + 8] == Encode(value, 8);
        WordSize();
        DecodeEncode(value, 8);
      } else {
        assert m'[a..a + 8] == m[a..a + 8];
      }
    }
    assert t'[frame] == t[frame][i := value];
  }

  lemma StoreElsewhere(m: seq<byte>, frame: nat, i: nat, value: nat, other: nat)
    requires 4096 * frame + 4096 <= |m| && i < 512 && 4096 * other + 4096 <= |m| && frame != other
    ensures Stored(m, 4096 * frame + 8 * i, value)[4096 * other..4096 * other + 4096]
         == m[4096 * other..4096 * other + 4096]
  {
  }

  lemma WordSize()
    ensures Pow256(8) == WORD
  {
    assert Pow256(2) == 0x1_0000;
    assert Pow256(4) == 0x1_0000_0000;
    assert Pow256(6) == 0x1_0000_0000_0000;
  }

  /** The physical memory of the machine. */
  class Ram {
    const bytes: array<byte>

    constructor ()
      ensures fresh(bytes) && bytes.Length == MAX_MEMORY
    {
      bytes := new byte[MAX_MEMORY];
    }

    ghost predicate Valid() {
      bytes.Length == MAX_MEMORY
    }

    /** The 4096 bytes of a frame. */
    ghost function Page(frame: nat): seq<byte>
      requires Valid() && frame < FRAME_COUNT
      reads bytes
    {
      bytes[4096 * frame..4096 * frame + 4096]
    }

    ghost function Tables(): Tables
      requires Valid()
      reads bytes
    {
      TablesOf(bytes[..])
    }

    /** Reads entry `i` of the table in `frame`. */
    method LoadEntry(frame: nat, i: nat) returns (entry: nat)
      requires Valid() && frame < FRAME_COUNT && i < 512
      ensures entry == Tables()[frame][i]
    {
      var address := 4096 * frame + 8 * i;
      entry := Decode(bytes[address..address + 8]);
      assert bytes[..][address..address + 8] == bytes[address..address + 8];
    }

    /** Writes the eight bytes of entry `i` of the table in `frame`. */
    method StoreEntry(frame: nat, i: nat, entry: nat)
      requires Valid() && frame < FRAME_COUNT && i < 512 && entry < WORD
      modifies bytes
      ensures Tables() == old(Tables())[frame := old(Tables())[frame][i := entry]]
      ensures forall f :: 0 <= f < FRAME_COUNT && f != frame ==> Page(f) == old(Page(f))
    {
      var address := 4096 * frame + 8 * i;
      StoreBytes(address, Encode(entry, 8));
      StoreChangesOneEntry(old(bytes[..]), frame, i, entry);
      forall f: nat | f < FRAME_COUNT && f != frame ensures Page(f) == old(Page(f)) {
        StoreElsewhere(old(bytes[..]), frame, i, entry, f);
        assert Page(f) == bytes[..][4096 * f..4096 * f + 4096];
        assert old(Page(f)) == old(bytes[..])[4096 * f..4096 * f + 4096];
      }
    }

    method StoreBytes(address: nat, data: seq<byte>)
      requires Valid() && address + |data| <= MAX_MEMORY
      modifies bytes
      ensures bytes[..] == old(bytes[..address]) + data + old(bytes[address + |data|..])
    {
      for k: nat := 0 to |data|
        invariant forall a :: 0 <= a < MAX_MEMORY ==>
          bytes[a] == if address <= a < address + k then data[a - address] else old(bytes[a])
      {
        bytes[address + k] := data[k];
      }
    }

    method StoreByte(address: nat, value: byte)
      requires Valid() && address < MAX_MEMORY
      modifies bytes
      ensures bytes[..] == old(bytes[..])[address := value]
      ensures forall f :: 0 <= f < FRAME_COUNT && f != address / 4096 ==> Tables()[f] == old(Tables())[f]
      ensures forall f :: 0 <= f < FRAME_COUNT && f != address / 4096 ==> Page(f) == old(Page(f))
      ensures Page(address / 4096) == old(Page(address / 4096))[address % 4096 := value]
    {
      ghost var m := bytes[..];
      bytes[address] := value;
      forall f | 0 <= f < FRAME_COUNT && f != address / 4096
        ensures Tables()[f] == TablesOf(m)[f]
      {
        SameFrameSameTable(m, bytes[..], f);
      }
    }
  }
}
