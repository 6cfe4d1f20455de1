/** Formatting, mounting and whole runs: what is on the disk is always what is in memory, and
    every run of operations acts as a run on a map of paths. */
module FsPersistence {
  import opened Collections
  import opened Words
  import opened FsModel
  import opened FsOperations
  import opened FsInvariant
  import opened FsRefinement

  // ----- The superblock -----

  const MAGIC := 0x4F41_4B31

  function SuperFields(): seq<byte> {
    Encode(MAGIC, 4) + Encode(1, 4) + Encode(TOTAL_SECTORS, 4) + Encode(2, 4)
    + Encode(8, 4) + Encode(10, 4) + Encode(8, 4) + Encode(DATA_START, 4)
  }

  function SuperSector(): (sector: seq<byte>)
    ensures |sector| == 512
  {
    SuperFields() + seq<byte>(480, (_: nat) => 0)
  }

  predicate SuperOk(sector: seq<byte>)
    requires |sector| == 512
  {
    && Decode(sector[0..4]) == MAGIC && Decode(sector[4..8]) == 1
    && Decode(sector[8..12]) == TOTAL_SECTORS
    && Decode(sector[12..16]) == 2 && Decode(sector[16..20]) == 8
    && Decode(sector[20..24]) == 10 && Decode(sector[24..28]) == 8
    && Decode(sector[28..32]) == DATA_START
  }

  lemma SuperSectorOk()
    ensures SuperOk(SuperSector())
  {
    hide Encode;
    UintSize();
    DecodeEncode(MAGIC, 4);
    DecodeEncode(1, 4);
    DecodeEncode(TOTAL_SECTORS, 4);
    DecodeEncode(2, 4);
    DecodeEncode(8, 4);
    DecodeEncode(10, 4);
    DecodeEncode(DATA_START, 4);
    var s := SuperSector();
    assert s[0..4] == Encode(MAGIC, 4);
    assert s[4..8] == Encode(1, 4);
    assert s[8..12] == Encode(TOTAL_SECTORS, 4);
    assert s[12..16] == Encode(2, 4);
    assert s[16..20] == Encode(8, 4);
    assert s[20..24] == Encode(10, 4);
    assert s[24..28] == Encode(8, 4);
    assert s[28..32] == Encode(DATA_START, 4);
  }

  // ----- Mounting -----

  predicate DiskShaped(disk: seq<seq<byte>>) {
    |disk| == TOTAL_SECTORS && forall s :: 0 <= s < TOTAL_SECTORS ==> |disk[s]| == 512
  }

  function BitmapOn(disk: seq<seq<byte>>): (bitmap: seq<byte>)
    requires DiskShaped(disk)
    ensures |bitmap| == 4096
  {
    disk[2] + disk[3] + disk[4] + disk[5] + disk[6] + disk[7] + disk[8] + disk[9]
  }

  function NodeOn(disk: seq<seq<byte>>, i: nat): Node
    requires DiskShaped(disk) && i < 64
  {
    DecodeNode(disk[10 + i / 8][64 * (i % 8)..64 * (i % 8) + 64])
  }

  function TableOn(disk: seq<seq<byte>>): (nodes: seq<Node>)
    requires DiskShaped(disk)
    ensures |nodes| == 64
  {
    seq(64, (i: nat) requires i < 64 => NodeOn(disk, i))
  }

  /** The table and bitmap a mount reads back, if the superblock and the root record pass. */
  function Mount(disk: seq<seq<byte>>): Option<(seq<Node>, seq<byte>)>
    requires DiskShaped(disk)
  {
    if SuperOk(disk[1]) && RootOk(TableOn(disk)) then Some((TableOn(disk), BitmapOn(disk))) else None
  }

  /** A mounted filesystem: consistent, and written back to its disk. */
  ghost predicate Mounted(fs: Fs) {
    Inv(fs) && Synced(fs) == fs && fs.disk[1] == SuperSector()
  }

  lemma BitmapRoundTrip(fs: Fs)
    requires Shaped(fs) && Synced(fs) == fs
    ensures BitmapOn(fs.disk) == fs.bitmap
  {
    FourBack(fs, 0);
    FourBack(fs, 4);
    hide Synced;
    hide BitmapOn;
    var b := fs.bitmap;
    Halves(fs.disk, b[0..2048], b[2048..4096]);
    assert b == b[0..2048] + b[2048..4096];
  }

  lemma FourBack(fs: Fs, k: nat)
    requires Shaped(fs) && Synced(fs) == fs && k + 4 <= 8
    ensures fs.disk[2 + k] + fs.disk[3 + k] + fs.disk[4 + k] + fs.disk[5 + k] == fs.bitmap[512 * k..512 * k + 2048]
  {
    BitmapSector(fs, k);
    BitmapSector(fs, k + 1);
    BitmapSector(fs, k + 2);
    BitmapSector(fs, k + 3);
    hide Synced;
    FourSlices(fs.bitmap, 512 * k);
  }

  lemma FourSlices(b: seq<byte>, at: nat)
    requires at + 2048 <= |b|
    ensures b[at..at + 512] + b[at + 512..at + 1024] + b[at + 1024..at + 1536] + b[at + 1536..at + 2048] ==
      b[at..at + 2048]
  {
    assert b[at..at + 512] + b[at + 512..at + 1024] == b[at..at + 1024];
    assert b[at..at + 1024] + b[at + 1024..at + 1536] == b[at..at + 1536];
  }

  lemma Halves(disk: seq<seq<byte>>, left: seq<byte>, right: seq<byte>)
    requires DiskShaped(disk)
    requires left == disk[2] + disk[3] + disk[4] + disk[5] && right == disk[6] + disk[7] + disk[8] + disk[9]
    ensures BitmapOn(disk) == left + right
  {
  }

  lemma BitmapSector(fs: Fs, k: nat)
    requires Shaped(fs) && Synced(fs) == fs && k < 8
    ensures fs.disk[2 + k] == fs.bitmap[512 * k..512 * k + 512]
  {
    hide NodeSector;
    assert Synced(fs).disk[2 + k] == fs.bitmap[512 * k..512 * k + 512];
  }

  lemma TableRoundTrip(fs: Fs)
    requires Shaped(fs) && Synced(fs) == fs
    ensures TableOn(fs.disk) == fs.nodes
  {
    forall i: nat | i < 64 ensures NodeOn(fs.disk, i) == fs.nodes[i] {
      RecordRoundTrip(fs, i);
    }
  }

  lemma RecordRoundTrip(fs: Fs, i: nat)
    requires Shaped(fs) && Synced(fs) == fs && i < 64
    ensures NodeOn(fs.disk, i) == fs.nodes[i]
  {
    hide EncodeNode;
    hide DecodeNode;
    var k, j := i / 8, i % 8;
    NodeSectorSlice(fs.nodes, k, j);
    assert Synced(fs).disk[10 + k] == NodeSector(fs.nodes, k);
    assert WellTyped(fs.nodes[i]);
    NodeRoundTrip(fs.nodes[i]);
  }

  /** Discarding memory and mounting again gives back the same table and bitmap. */
  lemma MountRestores(fs: Fs)
    requires Mounted(fs)
    ensures DiskShaped(fs.disk) && Mount(fs.disk) == Some((fs.nodes, fs.bitmap))
  {
    BitmapRoundTrip(fs);
    TableRoundTrip(fs);
    SuperSectorOk();
  }

  // ----- Formatting -----

  function BlankNode(n: Node): Node
    requires WellTyped(n)
  {
    n.(used := 0, directory := 0, size := 0, dataSector := 0, dataBlocks := 0, name := n.name[0 := 0])
  }

  function RootNode(n: Node): Node
    requires WellTyped(n)
  {
    BlankNode(n).(used := 1, directory := 1, name := WithName(BlankNode(n).name, Root()))
  }

  function BlankBitmap(): (bitmap: seq<byte>)
    ensures |bitmap| == 4096
  {
    SetRange(seq<byte>(4096, (_: nat) => 0), 0, DATA_START)
  }

  function BlankTable(nodes: seq<Node>): (r: seq<Node>)
    requires TableTyped(nodes)
    ensures TableTyped(r)
  {
    seq(64, (i: nat) requires i < 64 => if i == 0 then RootNode(nodes[0]) else BlankNode(nodes[i]))
  }

  /** A fresh filesystem, its superblock written last. */
  function Format(fs: Fs): (r: Fs)
    requires Shaped(fs)
    ensures Shaped(r)
  {
    var synced := Synced(fs.(nodes := BlankTable(fs.nodes), bitmap := BlankBitmap()));
    synced.(disk := synced.disk[1 := SuperSector()])
  }

  lemma BlankRecords(nodes: seq<Node>)
    requires TableTyped(nodes)
    ensures RecordsOk(BlankTable(nodes)) && RootOk(BlankTable(nodes))
    ensures forall i :: 0 < i < 64 ==> !Used(BlankTable(nodes)[i])
    ensures BlankTable(nodes)[0].dataBlocks == 0
  {
    TextOfName(RootNode(nodes[0]).name, Root());
  }

  lemma BlankBits(s: nat)
    requires s < TOTAL_SECTORS
    ensures IsSet(BlankBitmap(), s) <==> s < DATA_START
  {
    hide SetRange;
    SetRangeSets(seq<byte>(4096, (_: nat) => 0), 0, DATA_START, s);
    NoBits(s % 8);
  }

  lemma SyncedTwice(fs: Fs)
    requires Shaped(fs)
    ensures Synced(Synced(fs)) == Synced(fs)
  {
    hide NodeSector;
  }

  lemma SuperKeepsSynced(fs: Fs)
    requires Shaped(fs)
    ensures var r := Synced(fs).(disk := Synced(fs).disk[1 := SuperSector()]);
      Shaped(r) && Synced(r) == r
  {
    hide NodeSector;
    hide SuperSector;
    var r := Synced(fs).(disk := Synced(fs).disk[1 := SuperSector()]);
    assert Synced(r).disk == r.disk;
  }

  /** Formatting gives a mounted filesystem with nothing but the root directory. */
  lemma FormatMounts(fs: Fs)
    requires Shaped(fs)
    ensures Mounted(Format(fs)) && TreeOf(Format(fs)) == map[Root() := Directory]
  {
    FormatInv(fs);
    FormatTree(fs);
  }

  lemma FormatInv(fs: Fs)
    requires Shaped(fs)
    ensures Mounted(Format(fs))
  {
    hide BlankBitmap;
    hide BlankTable;
    hide Synced;
    var r := Format(fs);
    BlankRecords(fs.nodes);
    SuperKeepsSynced(fs.(nodes := BlankTable(fs.nodes), bitmap := BlankBitmap()));
    SyncedFields(fs.(nodes := BlankTable(fs.nodes), bitmap := BlankBitmap()));
    forall s: nat | s < TOTAL_SECTORS ensures IsSet(r.bitmap, s) <==> s < DATA_START || Taken(r.nodes, s) {
      BlankBits(s);
    }
  }

  lemma SyncedFields(fs: Fs)
    requires Shaped(fs)
    ensures Synced(fs).nodes == fs.nodes && Synced(fs).bitmap == fs.bitmap
  {
  }

  lemma FormatTree(fs: Fs)
    requires Shaped(fs) && Inv(Format(fs))
    ensures TreeOf(Format(fs)) == map[Root() := Directory]
  {
    hide TreeUpTo;
    hide Synced;
    var r := Format(fs);
    SyncedFields(fs.(nodes := BlankTable(fs.nodes), bitmap := BlankBitmap()));
    BlankRecords(fs.nodes);
    TreeAt(r, 64, 0);
    forall path: CString ensures path in TreeOf(r) <==> path == Root() {
      TreeHas(r, 64, path);
    }
  }

  // ----- Every run -----

  /** Every operation writes its changes back and leaves the superblock alone. */
  lemma CreateKeepsMounted(fs: Fs, path: CString, directory: bool)
    requires Mounted(fs)
    ensures Mounted(Create(fs, path, directory).0)
  {
    CreateKeepsInv(fs, path, directory);
    if Create(fs, path, directory).1 == 0 {
      var i := FirstUnused(fs.nodes, 0);
      NewNodeTyped(fs.nodes[i], i, path, directory);
      ChangeMounts(fs, fs.(nodes := fs.nodes[i := NewNode(fs.nodes[i], i, path, directory)]));
    }
  }

  lemma ChangeMounts(fs: Fs, changed: Fs)
    requires Mounted(fs) && Shaped(changed) && changed.disk[1] == fs.disk[1] && Inv(Synced(changed))
    ensures Mounted(Synced(changed))
  {
    hide NodeSector;
    hide Inv;
    SyncedTwice(changed);
  }

  lemma WriteKeepsMounted(fs: Fs, path: CString, data: Option<seq<byte>>)
    requires Mounted(fs)
    ensures Mounted(Write(fs, path, data).0)
  {
    WriteKeepsInv(fs, path, data);
    if Write(fs, path, data).1 != -1 {
      var i := Find(fs.nodes, path);
      assert RecordOk(fs.nodes[i]);
      var sector := FirstFit(Released(fs, i), Blocks(|data.value|), DATA_START).value;
      StoredShaped(fs, i, sector, data.value);
      ChangeMounts(fs, Stored(fs, i, sector, data.value));
    }
  }

  lemma RemoveKeepsMounted(fs: Fs, path: CString)
    requires Mounted(fs)
    ensures Mounted(Remove(fs, path).0)
  {
    RemoveKeepsInv(fs, path);
    var i := Find(fs.nodes, path);
    if i > 0 {
      assert RecordOk(fs.nodes[i]);
      ChangeMounts(fs, fs.(nodes := Remove(fs, path).0.nodes, bitmap := Released(fs, i)));
    }
  }

  datatype Operation =
    | CreateOp(path: CString, directory: bool)
    | WriteOp(path: CString, data: Option<seq<byte>>)
    | RemoveOp(path: CString)
    | Remount

  function Step(fs: Fs, op: Operation): Fs
    requires Shaped(fs) && RecordsOk(fs.nodes)
  {
    match op
    case CreateOp(path, directory) => Create(fs, path, directory).0
    case WriteOp(path, data) => Write(fs, path, data).0
    case RemoveOp(path) => Remove(fs, path).0
    case Remount => match Mount(fs.disk) case None => fs case Some(read) => Fs(read.0, read.1, fs.disk)
  }

  function StepTree(tree: Tree, op: Operation): Tree {
    match op
    case CreateOp(path, directory) => CreateAt(tree, path, directory).0
    case WriteOp(path, data) => WriteAt(tree, path, data).0
    case RemoveOp(path) => RemoveAt(tree, path).0
    case Remount => tree
  }

  lemma StepRefines(fs: Fs, op: Operation)
    requires Mounted(fs)
    ensures Mounted(Step(fs, op)) && TreeOf(Step(fs, op)) == StepTree(TreeOf(fs), op)
  {
    match op {
      case CreateOp(path, directory) =>
        CreateKeepsMounted(fs, path, directory);
        CreateRefines(fs, path, directory);
      case WriteOp(path, data) =>
        WriteKeepsMounted(fs, path, data);
        WriteRefines(fs, path, data);
      case RemoveOp(path) =>
        RemoveKeepsMounted(fs, path);
        RemoveRefines(fs, path);
      case Remount =>
        MountRestores(fs);
    }
  }

  ghost function Run(fs: Fs, ops: seq<Operation>): (r: Fs)
    requires Mounted(fs)
    ensures Mounted(r)
  {
    if ops == [] then fs
    else
      StepRefines(Run(fs, ops[..|ops| - 1]), ops[|ops| - 1]);
      Step(Run(fs, ops[..|ops| - 1]), ops[|ops| - 1])
  }

  function RunTree(tree: Tree, ops: seq<Operation>): Tree {
    if ops == [] then tree else StepTree(RunTree(tree, ops[..|ops| - 1]), ops[|ops| - 1])
  }

  /** A run on the disk structures is a run on the map of paths. */
  lemma {:induction false} RunRefines(fs: Fs, ops: seq<Operation>)
    requires Mounted(fs)
    ensures TreeOf(Run(fs, ops)) == RunTree(TreeOf(fs), ops)
  {
    if ops != [] {
      RunRefines(fs, ops[..|ops| - 1]);
      StepRefines(Run(fs, ops[..|ops| - 1]), ops[|ops| - 1]);
    }
  }

  predicate Touches(op: Operation, path: CString) {
    !op.Remount? && op.path == path
  }

  lemma {:induction false} UntouchedPath(tree: Tree, ops: seq<Operation>, path: CString)
    requires forall k :: 0 <= k < |ops| ==> !Touches(ops[k], path)
    ensures path in RunTree(tree, ops) <==> path in tree
    ensures path in tree ==> RunTree(tree, ops)[path] == tree[path]
  {
    if ops != [] {
      UntouchedPath(tree, ops[..|ops| - 1], path);
      assert !Touches(ops[|ops| - 1], path);
    }
  }

  /** After any run, and any further run that does not touch the path, a read returns the prefix
      of the last successful write to it. */
  lemma ReadsLastWrite(fs: Fs, before: seq<Operation>, path: CString, data: seq<byte>, after: seq<Operation>,
      capacity: nat)
    requires Mounted(fs)
    requires Write(Run(fs, before), path, Some(data)).1 != -1
    requires forall k :: 0 <= k < |after| ==> !Touches(after[k], path)
    ensures Mounted(Write(Run(fs, before), path, Some(data)).0)
    ensures Read(Run(Write(Run(fs, before), path, Some(data)).0, after), path, true, capacity) ==
      Some(Prefix(data, capacity))
  {
    hide TreeUpTo;
    hide TreeOf;
    hide Write;
    hide Read;
    hide Run;
    var start := Run(fs, before);
    WriteKeepsMounted(start, path, Some(data));
    WriteRefines(start, path, Some(data));
    var written := Write(start, path, Some(data)).0;
    RunRefines(written, after);
    UntouchedPath(TreeOf(written), after, path);
    ReadRefines(Run(written, after), path, true, capacity);
  }
}
