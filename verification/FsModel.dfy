/** The on-disk filesystem of fs.c as values: node records, the block bitmap, the sector
    layout, and what each operation makes of them. */
module FsModel {
  import opened Collections
  import opened Words

  const TOTAL_SECTORS := 0x8000
  const DATA_START := 18

  // ----- Node records and their 64-byte form -----

  datatype Node = Node(used: nat, directory: nat, size: nat, dataSector: nat, dataBlocks: nat,
                       name: seq<byte>, reserved: seq<byte>)

  predicate WellTyped(n: Node) {
    n.used < UINT && n.directory < UINT && n.size < UINT && n.dataSector < UINT && n.dataBlocks < UINT
    && |n.name| == 32 && |n.reserved| == 12
  }

  function EncodeNode(n: Node): (bytes: seq<byte>)
    requires WellTyped(n)
    ensures |bytes| == 64
  {
    Encode(n.used, 4) + Encode(n.directory, 4) + Encode(n.size, 4) + Encode(n.dataSector, 4)
    + Encode(n.dataBlocks, 4) + n.name + n.reserved
  }

  function DecodeNode(bytes: seq<byte>): Node
    requires |bytes| == 64
  {
    Node(Decode(bytes[0..4]), Decode(bytes[4..8]), Decode(bytes[8..12]), Decode(bytes[12..16]),
         Decode(bytes[16..20]), bytes[20..52], bytes[52..64])
  }

  lemma UintSize()
    ensures Pow256(4) == UINT
  {
    assert Pow256(2) == 0x1_0000;
  }

  lemma NodeFields(n: Node)
    requires WellTyped(n)
    ensures var b := EncodeNode(n);
      && b[0..4] == Encode(n.used, 4) && b[4..8] == Encode(n.directory, 4) && b[8..12] == Encode(n.size, 4)
      && b[12..16] == Encode(n.dataSector, 4) && b[16..20] == Encode(n.dataBlocks, 4)
      && b[20..52] == n.name && b[52..64] == n.reserved
  {
    hide Encode;
    Concatenated(Encode(n.used, 4), Encode(n.directory, 4), Encode(n.size, 4), Encode(n.dataSector, 4),
                 Encode(n.dataBlocks, 4), n.name, n.reserved);
  }

  lemma Concatenated(a: seq<byte>, b: seq<byte>, c: seq<byte>, d: seq<byte>, e: seq<byte>, f: seq<byte>, g: seq<byte>)
    requires |a| == |b| == |c| == |d| == |e| == 4 && |f| == 32 && |g| == 12
    ensures var all := a + b + c + d + e + f + g;
      && all[0..4] == a && all[4..8] == b && all[8..12] == c && all[12..16] == d && all[16..20] == e
      && all[20..52] == f && all[52..64] == g
  {
  }

  lemma NodeRoundTrip(n: Node)
    requires WellTyped(n)
    ensures DecodeNode(EncodeNode(n)) == n
  {
    hide Encode;
    hide EncodeNode;
    UintSize();
    NodeFields(n);
    DecodeEncode(n.used, 4);
    DecodeEncode(n.directory, 4);
    DecodeEncode(n.size, 4);
    DecodeEncode(n.dataSector, 4);
    DecodeEncode(n.dataBlocks, 4);
  }

  lemma DecodedIsWellTyped(bytes: seq<byte>)
    requires |bytes| == 64
    ensures WellTyped(DecodeNode(bytes))
  {
    UintSize();
    EncodeDecode(bytes[0..4]);
    EncodeDecode(bytes[4..8]);
    EncodeDecode(bytes[8..12]);
    EncodeDecode(bytes[12..16]);
    EncodeDecode(bytes[16..20]);
  }

  /** The 64 records of the node table. */
  predicate TableTyped(nodes: seq<Node>) {
    |nodes| == 64 && forall i :: 0 <= i < 64 ==> WellTyped(nodes[i])
  }

  /** Eight node records to a sector. */
  function NodeSector(nodes: seq<Node>, k: nat): (sector: seq<byte>)
    requires TableTyped(nodes) && k < 8
    ensures |sector| == 512
  {
    EncodeNode(nodes[8 * k]) + EncodeNode(nodes[8 * k + 1])
    + EncodeNode(nodes[8 * k + 2]) + EncodeNode(nodes[8 * k + 3])
    + EncodeNode(nodes[8 * k + 4]) + EncodeNode(nodes[8 * k + 5])
    + EncodeNode(nodes[8 * k + 6]) + EncodeNode(nodes[8 * k + 7])
  }

  /** The record at position `j` of a node sector. */
  lemma NodeSectorSlice(nodes: seq<Node>, k: nat, j: nat)
    requires TableTyped(nodes) && k < 8 && j < 8
    ensures NodeSector(nodes, k)[64 * j..64 * j + 64] == EncodeNode(nodes[8 * k + j])
  {
    hide EncodeNode;
    EightParts(EncodeNode(nodes[8 * k]), EncodeNode(nodes[8 * k + 1]),
      EncodeNode(nodes[8 * k + 2]), EncodeNode(nodes[8 * k + 3]),
      EncodeNode(nodes[8 * k + 4]), EncodeNode(nodes[8 * k + 5]),
      EncodeNode(nodes[8 * k + 6]), EncodeNode(nodes[8 * k + 7]));
    hide NodeSector;
  }

  lemma EightParts(a: seq<byte>, b: seq<byte>, c: seq<byte>, d: seq<byte>, e: seq<byte>, f: seq<byte>, g: seq<byte>,
      h: seq<byte>)
    requires |a| == |b| == |c| == |d| == |e| == |f| == |g| == |h| == 64
    ensures var all := a + b + c + d + e + f + g + h;
      && |all| == 512 && all[..64] == a && all[64..128] == b && all[128..192] == c && all[192..256] == d
      && all[256..320] == e && all[320..384] == f && all[384..448] == g && all[448..512] == h
  {
    var left, right := a + b + c + d, e + f + g + h;
    FourParts(a, b, c, d);
    FourParts(e, f, g, h);
    var all := a + b + c + d + e + f + g + h;
    assert all == left + right;
    assert all[256..320] == right[..64] && all[320..384] == right[64..128];
    assert all[384..448] == right[128..192] && all[448..512] == right[192..256];
  }

  lemma FourParts(a: seq<byte>, b: seq<byte>, c: seq<byte>, d: seq<byte>)
    requires |a| == |b| == |c| == |d| == 64
    ensures var all := a + b + c + d;
      |all| == 256 && all[..64] == a && all[64..128] == b && all[128..192] == c && all[192..256] == d
  {
  }

  // ----- Strings -----

  /** A C string: no NUL inside. */
  type CString = s: seq<byte> | forall c :: c in s ==> c != 0

  /** The string held in a name field, up to its first NUL. */
  function Text(name: seq<byte>): (s: CString)
    ensures |s| <= |name|
    ensures forall i :: 0 <= i < |s| ==> s[i] == name[i]
    ensures |s| < |name| ==> name[|s|] == 0
  {
    if name == [] || name[0] == 0 then [] else [name[0]] + Text(name[1..])
  }

  const SLASH: byte := 0x2F

  function Root(): CString {
    [SLASH]
  }

  predicate ValidPath(path: CString) {
    0 < |path| < 32 && path[0] == SLASH
  }

  // ----- The state -----

  datatype Fs = Fs(nodes: seq<Node>, bitmap: seq<byte>, disk: seq<seq<byte>>)

  predicate Used(n: Node) {
    n.used != 0
  }

  predicate IsDirectory(n: Node) {
    n.directory != 0
  }

  predicate InExtent(n: Node, sector: nat) {
    n.dataSector <= sector < n.dataSector + n.dataBlocks
  }

  function Blocks(size: nat): nat {
    (size + 511) / 512
  }

  predicate Shaped(fs: Fs) {
    && TableTyped(fs.nodes) && |fs.bitmap| == 4096 && |fs.disk| == TOTAL_SECTORS
    && (forall s :: 0 <= s < TOTAL_SECTORS ==> |fs.disk[s]| == 512)
  }

  /** A used record: a terminated, valid path and an extent in the data area of the right length. */
  predicate RecordOk(n: Node) {
    Used(n) ==>
      && |Text(n.name)| < |n.name| && ValidPath(Text(n.name))
      && n.dataSector + n.dataBlocks <= TOTAL_SECTORS
      && (n.dataBlocks > 0 ==> DATA_START <= n.dataSector)
      && (if IsDirectory(n) then n.size == 0 && n.dataBlocks == 0 else n.size <= 1024 && n.dataBlocks == Blocks(n.size))
  }

  predicate RecordsOk(nodes: seq<Node>) {
    forall i :: 0 <= i < |nodes| ==> RecordOk(nodes[i])
  }

  ghost predicate UniquePaths(nodes: seq<Node>) {
    forall i, j :: 0 <= i < j < |nodes| && Used(nodes[i]) && Used(nodes[j]) ==>
      Text(nodes[i].name) != Text(nodes[j].name)
  }

  ghost predicate DisjointExtents(nodes: seq<Node>) {
    forall i, j, s: nat {:trigger InExtent(nodes[i], s), InExtent(nodes[j], s)} ::
      0 <= i < j < |nodes| && Used(nodes[i]) && Used(nodes[j]) ==> !(InExtent(nodes[i], s) && InExtent(nodes[j], s))
  }

  /** Some used record's extent has the sector. */
  ghost predicate Taken(nodes: seq<Node>, sector: nat) {
    exists i :: 0 <= i < |nodes| && Used(nodes[i]) && InExtent(nodes[i], sector)
  }

  /** The set bits are the reserved sectors and the extents of used records, no more and no less. */
  ghost predicate BitmapOk(fs: Fs)
    requires |fs.bitmap| == 4096
  {
    forall s: nat :: s < TOTAL_SECTORS ==> (IsSet(fs.bitmap, s) <==> s < DATA_START || Taken(fs.nodes, s))
  }

  predicate RootOk(nodes: seq<Node>) {
    |nodes| > 0 && Used(nodes[0]) && IsDirectory(nodes[0]) && Text(nodes[0].name) == Root()
  }

  ghost predicate Inv(fs: Fs) {
    && Shaped(fs)
    && RecordsOk(fs.nodes)
    && RootOk(fs.nodes)
    && UniquePaths(fs.nodes)
    && DisjointExtents(fs.nodes)
    && BitmapOk(fs)
  }

  // ----- Searching -----

  /** The first used record at or after `i` with this path, or -1. */
  function FindFrom(nodes: seq<Node>, path: CString, i: nat): (r: int)
    requires i <= |nodes|
    ensures -1 <= r < |nodes|
    ensures r >= 0 ==> i <= r && Used(nodes[r]) && Text(nodes[r].name) == path
    ensures r < 0 ==> forall k :: i <= k < |nodes| && Used(nodes[k]) ==> Text(nodes[k].name) != path
    decreases |nodes| - i
  {
    if i == |nodes| then -1
    else if Used(nodes[i]) && Text(nodes[i].name) == path then i
    else FindFrom(nodes, path, i + 1)
  }

  function Find(nodes: seq<Node>, path: CString): (r: int)
    ensures -1 <= r < |nodes|
    ensures r >= 0 ==> Used(nodes[r]) && Text(nodes[r].name) == path
    ensures r < 0 ==> forall k :: 0 <= k < |nodes| && Used(nodes[k]) ==> Text(nodes[k].name) != path
  {
    FindFrom(nodes, path, 0)
  }

  /** The first unused record at or after `i`, or -1. */
  function FirstUnused(nodes: seq<Node>, i: nat): (r: int)
    requires i <= |nodes|
    ensures -1 <= r < |nodes|
    ensures r >= 0 ==> i <= r && !Used(nodes[r])
    ensures r < 0 ==> forall k :: i <= k < |nodes| ==> Used(nodes[k])
    decreases |nodes| - i
  {
    if i == |nodes| then -1 else if !Used(nodes[i]) then i else FirstUnused(nodes, i + 1)
  }

  predicate RunFree(bitmap: seq<byte>, sector: nat, blocks: nat)
    requires |bitmap| == 4096 && sector + blocks <= TOTAL_SECTORS
  {
    forall s: nat :: sector <= s < sector + blocks ==> !IsSet(bitmap, s)
  }

  /** First fit at or after `from`. */
  function FirstFit(bitmap: seq<byte>, blocks: nat, from: nat): (r: Option<nat>)
    requires |bitmap| == 4096
    ensures r.Some? ==> from <= r.value && r.value + blocks <= TOTAL_SECTORS && RunFree(bitmap, r.value, blocks)
    ensures r.Some? ==> forall s: nat :: from <= s < r.value ==> !RunFree(bitmap, s, blocks)
    ensures r.None? ==> forall s: nat :: from <= s && s + blocks <= TOTAL_SECTORS ==> !RunFree(bitmap, s, blocks)
    decreases TOTAL_SECTORS - from
  {
    if from + blocks > TOTAL_SECTORS then None
    else if RunFree(bitmap, from, blocks) then Some(from)
    else FirstFit(bitmap, blocks, from + 1)
  }

  function SetRange(bitmap: seq<byte>, sector: nat, blocks: nat): (r: seq<byte>)
    requires sector + blocks <= 8 * |bitmap|
    ensures |r| == |bitmap|
  {
    if blocks == 0 then bitmap else SetBit(SetRange(bitmap, sector, blocks - 1), sector + blocks - 1)
  }

  function ClearRange(bitmap: seq<byte>, sector: nat, blocks: nat): (r: seq<byte>)
    requires sector + blocks <= 8 * |bitmap|
    ensures |r| == |bitmap|
  {
    if blocks == 0 then bitmap else ClearBit(ClearRange(bitmap, sector, blocks - 1), sector + blocks - 1)
  }

  lemma {:induction false} SetRangeSets(bitmap: seq<byte>, sector: nat, blocks: nat, s: nat)
    requires sector + blocks <= 8 * |bitmap| && s < 8 * |bitmap|
    ensures IsSet(SetRange(bitmap, sector, blocks), s) <==> sector <= s < sector + blocks || IsSet(bitmap, s)
  {
    if blocks > 0 {
      SetRangeSets(bitmap, sector, blocks - 1, s);
      SetBitSets(SetRange(bitmap, sector, blocks - 1), sector + blocks - 1, s);
    }
  }

  lemma {:induction false} ClearRangeClears(bitmap: seq<byte>, sector: nat, blocks: nat, s: nat)
    requires sector + blocks <= 8 * |bitmap| && s < 8 * |bitmap|
    ensures IsSet(ClearRange(bitmap, sector, blocks), s) <==> !(sector <= s < sector + blocks) && IsSet(bitmap, s)
  {
    if blocks > 0 {
      ClearRangeClears(bitmap, sector, blocks - 1, s);
      ClearBitClears(ClearRange(bitmap, sector, blocks - 1), sector + blocks - 1, s);
    }
  }
}
