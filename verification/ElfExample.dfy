/** An executable whose two segments meet on one page, and what elf.c makes of it. */
module ElfExample {
  import opened Words
  import opened Memory
  import opened Elf

  /** A header, two program headers and two bytes: one for address 0x4000_0000, to be writable, and one
      for 0x4000_0010, to be read only. */
  function ExampleByte(k: nat): byte {
    if k == 0 then 0x7F else if k == 1 then 0x45 else if k == 2 then 0x4C else if k == 3 then 0x46
    else if k == 4 then 2 else if k == 5 then 1
    else if k == 16 then 2 else if k == 18 then 62 else if k == 32 then 64 else if k == 54 then 56
      else if k == 56 then 2
    else if k == 64 then 1 else if k == 68 then 6 else if k == 72 then 176 else if k == 83 then 0x40
    else if k == 96 then 1 else if k == 104 then 1
    else if k == 120 then 1 else if k == 124 then 4 else if k == 128 then 177 else if k == 136 then 0x10
    else if k == 139 then 0x40 else if k == 152 then 1 else if k == 160 then 1
    else if k == 176 then 0xAA else if k == 177 then 0xBB
    else 0
  }

  function Example(): (image: seq<byte>)
    ensures |image| == 178 && forall k :: 0 <= k < 178 ==> image[k] == ExampleByte(k)
  {
    seq<byte>(178, (k: nat) => ExampleByte(k))
  }

  function First(): Segment {
    Segment(1, 6, 176, 0x4000_0000, 1, 1)
  }

  function Second(): Segment {
    Segment(1, 4, 177, 0x4000_0010, 1, 1)
  }

  lemma FieldNext(image: seq<byte>, at: nat, n: nat)
    requires at + n + 1 <= |image|
    ensures Field(image, at, n + 1) == image[at] + 256 * Field(image, at + 1, n)
  {
    assert image[at..at + n + 1][1..] == image[at + 1..at + n + 1];
  }

  lemma FieldEmpty(image: seq<byte>, at: nat)
    requires at <= |image|
    ensures Field(image, at, 0) == 0
  {
  }

  lemma {:induction false} ZeroField(image: seq<byte>, at: nat, n: nat)
    requires at + n <= |image| && forall k :: at <= k < at + n ==> image[k] == 0
    ensures Field(image, at, n) == 0
    decreases n
  {
    hide Field;
    if n == 0 {
      FieldEmpty(image, at);
    } else {
      ZeroField(image, at + 1, n - 1);
      FieldNext(image, at, n - 1);
    }
  }

  /** A number that fits one byte. */
  lemma ByteField(image: seq<byte>, at: nat, n: nat)
    requires 0 < n && at + n <= |image| && forall k :: at < k < at + n ==> image[k] == 0
    ensures Field(image, at, n) == image[at]
  {
    hide Field;
    ZeroField(image, at + 1, n - 1);
    FieldNext(image, at, n - 1);
  }

  /** An address whose first and fourth byte are not zero. */
  lemma AddressField(image: seq<byte>, at: nat)
    requires at + 8 <= |image| && forall k :: at < k < at + 8 && k != at + 3 ==> image[k] == 0
    ensures Field(image, at, 8) == image[at] as int + 0x100_0000 * (image[at + 3] as int)
  {
    hide Field;
    ByteField(image, at + 3, 5);
    FieldNext(image, at + 2, 5);
    FieldNext(image, at + 1, 6);
    FieldNext(image, at, 7);
  }

  predicate IsExample(image: seq<byte>) {
    |image| == 178 && forall k :: 0 <= k < 178 ==> image[k] == ExampleByte(k)
  }

  lemma ExampleHeader(image: seq<byte>)
    requires IsExample(image)
    ensures HeaderOk(image) && HeaderCount(image) == 2 && Field(image, 32, 8) == 64
  {
    hide Field;
    ByteField(image, 16, 2);
    ByteField(image, 18, 2);
    ByteField(image, 54, 2);
    ByteField(image, 32, 8);
    ByteField(image, 56, 2);
  }

  lemma FirstHeader(image: seq<byte>)
    requires IsExample(image)
    ensures Field(image, 64, 4) == 1 && Field(image, 68, 4) == 6 && Field(image, 72, 8) == 176
    ensures Field(image, 80, 8) == 0x4000_0000 && Field(image, 96, 8) == 1 && Field(image, 104, 8) == 1
  {
    hide Field;
    ByteField(image, 64, 4);
    ByteField(image, 68, 4);
    ByteField(image, 72, 8);
    AddressField(image, 80);
    ByteField(image, 96, 8);
    ByteField(image, 104, 8);
  }

  lemma SecondHeader(image: seq<byte>)
    requires IsExample(image)
    ensures Field(image, 120, 4) == 1 && Field(image, 124, 4) == 4 && Field(image, 128, 8) == 177
    ensures Field(image, 136, 8) == 0x4000_0010 && Field(image, 152, 8) == 1 && Field(image, 160, 8) == 1
  {
    hide Field;
    ByteField(image, 120, 4);
    ByteField(image, 124, 4);
    ByteField(image, 128, 8);
    AddressField(image, 136);
    ByteField(image, 152, 8);
    ByteField(image, 160, 8);
  }

  lemma BothHeaders(image: seq<byte>, zero: nat, one: nat)
    requires HeaderOk(image) && HeaderCount(image) == 2 && Field(image, 32, 8) == 64 && IsExample(image)
    requires zero == 0 && one == 1
    ensures ProgramHeader(image, zero) == First() && ProgramHeader(image, one) == Second()
  {
    FirstHeader(image);
    SecondHeader(image);
    hide Field;
    hide HeaderOk;
    hide IsExample;
  }

  lemma ExampleLoads(image: seq<byte>, none: nat)
    requires IsExample(image) && none == 0
    ensures HeaderOk(image) && AllLoads(image) == [First(), Second()] && SegmentsOk(image)
  {
    ExampleHeader(image);
    hide HeaderOk;
    BothHeaders(image, none, none + 1);
    hide ProgramHeader;
    hide IsExample;
    LoadsNext(image, none);
    LoadsNext(image, none + 1);
    assert Loads(image, none) == [];
    assert Loads(image, none + 1) == [First()];
    assert Loads(image, none + 2) == [First()] + [Second()];
  }

  /** The image is accepted. The first segment's byte 0xAA is gone from memory, where its page belongs to
      the second segment, and so is its right to write there. */
  lemma SharedPageLoses(image: seq<byte>)
    requires image == Example()
    ensures HeaderOk(image) && SegmentsOk(image) && AllLoads(image) == [First(), Second()]
    ensures SegmentOk(image, First()) && SegmentByte(image, First(), 0x4000_0000) == 0xAA && IsWritable(First())
    ensures SegmentOk(image, Second()) && 0x4_0000 in Providers(AllLoads(image))
    ensures Providers(AllLoads(image))[0x4_0000] == Second() && !IsWritable(Second())
    ensures PageImage(image, Second(), 0x4_0000)[0] == 0
  {
    hide ExampleByte;
    hide SegmentOk;
    hide SegmentByte;
    hide PageImage;
    hide HeaderOk;
    hide AllLoads;
    hide SegmentsOk;
    hide Providers;
    FirstByte(image);
    SecondByte(image);
    ExampleLoads(image, 0);
    SecondProvides();
  }

  lemma FirstByte(image: seq<byte>)
    requires image == Example()
    ensures SegmentOk(image, First()) && SegmentByte(image, First(), 0x4000_0000) == 0xAA
  {
  }

  lemma SecondByte(image: seq<byte>)
    requires |image| == 178
    ensures SegmentOk(image, Second()) && PageImage(image, Second(), 0x4_0000)[0] == 0
  {
    assert SegmentByte(image, Second(), 4096 * 0x4_0000 + 0) == 0;
  }

  lemma SecondProvides()
    ensures 0x4_0000 in Providers([First(), Second()]) && Providers([First(), Second()])[0x4_0000] == Second()
  {
    hide Providers;
    LastProvides([First(), Second()], 1, 0x4_0000);
  }
}
