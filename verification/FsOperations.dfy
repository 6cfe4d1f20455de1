/** What each filesystem operation of fs.c computes, and why every run keeps the table and the
    bitmap in agreement. */
module FsOperations {
  import opened Collections
  import opened Words
  import opened FsModel

  // ----- Writing the metadata back -----

  /** Sectors 2 to 9 hold the bitmap and 10 to 17 the node table; every other sector is as before. */
  function Synced(fs: Fs): (r: Fs)
    requires Shaped(fs)
    ensures Shaped(r)
  {
    fs.(disk := seq(TOTAL_SECTORS, (s: nat) requires s < TOTAL_SECTORS =>
          if 2 <= s < 10 then fs.bitmap[512 * (s - 2)..512 * (s - 2) + 512]
          else if 10 <= s < 18 then NodeSector(fs.nodes, s - 10)
          else fs.disk[s]))
  }

  // ----- Creating -----

  /** The name field after copying a valid path into it. */
  function WithName(field: seq<byte>, path: CString): (r: seq<byte>)
    requires |field| == 32 && |path| < 32
    ensures |r| == 32
  {
    path + [0] + field[|path| + 1..]
  }

  function NewNode(n: Node, i: nat, path: CString, directory: bool): Node
    requires |n.name| == 32 && |path| < 32
  {
    n.(used := 1, directory := if directory then 1 else 0, size := 0, dataSector := DATA_START + 2 * i,
       dataBlocks := 0, name := WithName(n.name, path))
  }

  function Create(fs: Fs, path: CString, directory: bool): (r: (Fs, int))
    requires Shaped(fs)
  {
    if !ValidPath(path) || Find(fs.nodes, path) >= 0 || FirstUnused(fs.nodes, 0) < 0 then
      (fs, -1)
    else
      var i := FirstUnused(fs.nodes, 0);
      NewNodeTyped(fs.nodes[i], i, path, directory);
      (Synced(fs.(nodes := fs.nodes[i := NewNode(fs.nodes[i], i, path, directory)])), 0)
  }

  lemma NewNodeTyped(n: Node, i: nat, path: CString, directory: bool)
    requires WellTyped(n) && |path| < 32 && i < 64
    ensures WellTyped(NewNode(n, i, path, directory))
  {
  }

  // ----- Writing -----

  /** Sector `k` of a file: its bytes, padded with zeros. */
  function BlockOf(data: seq<byte>, k: nat): (sector: seq<byte>)
    ensures |sector| == 512
  {
    seq<byte>(512, (b: nat) => if 512 * k + b < |data| then data[512 * k + b] else 0)
  }

  function WithBlocks(disk: seq<seq<byte>>, sector: nat, data: seq<byte>): (r: seq<seq<byte>>)
    ensures |r| == |disk|
  {
    seq(|disk|, (s: nat) requires s < |disk| =>
      if sector <= s < sector + Blocks(|data|) then BlockOf(data, s - sector) else disk[s])
  }

  /** The bitmap with a record's own blocks released. */
  function Released(fs: Fs, i: nat): (bitmap: seq<byte>)
    requires Shaped(fs) && i < 64 && fs.nodes[i].dataSector + fs.nodes[i].dataBlocks <= TOTAL_SECTORS
    ensures |bitmap| == 4096
  {
    ClearRange(fs.bitmap, fs.nodes[i].dataSector, fs.nodes[i].dataBlocks)
  }

  /** Storing `data` at `sector` on behalf of record `i`. */
  function Stored(fs: Fs, i: nat, sector: nat, data: seq<byte>): Fs
    requires Shaped(fs) && i < 64 && |data| <= 1024 && sector + Blocks(|data|) <= TOTAL_SECTORS
    requires fs.nodes[i].dataSector + fs.nodes[i].dataBlocks <= TOTAL_SECTORS
  {
    Fs(fs.nodes[i := fs.nodes[i].(size := |data|, dataSector := sector, dataBlocks := Blocks(|data|))],
       SetRange(Released(fs, i), sector, Blocks(|data|)),
       WithBlocks(fs.disk, sector, data))
  }

  lemma WrittenShaped(disk: seq<seq<byte>>, sector: nat, data: seq<byte>)
    requires |disk| == TOTAL_SECTORS && forall s :: 0 <= s < TOTAL_SECTORS ==> |disk[s]| == 512
    ensures var r := WithBlocks(disk, sector, data);
      |r| == TOTAL_SECTORS && forall s :: 0 <= s < TOTAL_SECTORS ==> |r[s]| == 512
  {
    var r := WithBlocks(disk, sector, data);
    forall s: nat | s < TOTAL_SECTORS ensures |r[s]| == 512 {
      assert r[s] == if sector <= s < sector + Blocks(|data|) then BlockOf(data, s - sector) else disk[s];
    }
  }

  lemma StoredShaped(fs: Fs, i: nat, sector: nat, data: seq<byte>)
    requires Shaped(fs) && i < 64 && |data| <= 1024 && sector + Blocks(|data|) <= TOTAL_SECTORS
    requires fs.nodes[i].dataSector + fs.nodes[i].dataBlocks <= TOTAL_SECTORS
    ensures Shaped(Stored(fs, i, sector, data))
  {
    var r := Stored(fs, i, sector, data);
    assert WellTyped(r.nodes[i]);
    WrittenShaped(fs.disk, sector, data);
    hide WithBlocks;
  }

  /** A write to a path. With no room, the old blocks stay released in memory. */
  function Write(fs: Fs, path: CString, data: Option<seq<byte>>): (r: (Fs, int))
    requires Shaped(fs) && RecordsOk(fs.nodes)
  {
    var i := Find(fs.nodes, path);
    if i < 0 || IsDirectory(fs.nodes[i]) || data.None? || |data.value| > 1024 then
      (fs, -1)
    else
      assert RecordOk(fs.nodes[i]);
      var fit := FirstFit(Released(fs, i), Blocks(|data.value|), DATA_START);
      if fit.None? then
        (fs.(bitmap := Released(fs, i)), -1)
      else
        StoredShaped(fs, i, fit.value, data.value);
        (Synced(Stored(fs, i, fit.value, data.value)), |data.value|)
  }

  // ----- Reading -----

  /** The bytes of a file. */
  function Content(disk: seq<seq<byte>>, n: Node): seq<byte>
    requires |disk| == TOTAL_SECTORS && (forall s :: 0 <= s < TOTAL_SECTORS ==> |disk[s]| == 512)
    requires n.dataSector + Blocks(n.size) <= TOTAL_SECTORS
  {
    seq<byte>(n.size, (b: nat) requires b < n.size => disk[n.dataSector + b / 512][b % 512])
  }

  function Prefix(s: seq<byte>, capacity: nat): seq<byte> {
    if |s| < capacity then s else s[..capacity]
  }

  /** A read from a path into a buffer; `None` for the error return. */
  function Read(fs: Fs, path: CString, hasBuffer: bool, capacity: nat): Option<seq<byte>>
    requires Shaped(fs) && RecordsOk(fs.nodes)
  {
    var i := Find(fs.nodes, path);
    if i < 0 || IsDirectory(fs.nodes[i]) || !hasBuffer then None
    else
      assert RecordOk(fs.nodes[i]);
      Some(Prefix(Content(fs.disk, fs.nodes[i]), capacity))
  }

  // ----- Removing -----

  function Remove(fs: Fs, path: CString): (r: (Fs, bool))
    requires Shaped(fs) && RecordsOk(fs.nodes)
  {
    var i := Find(fs.nodes, path);
    if i <= 0 then
      (fs, false)
    else
      assert RecordOk(fs.nodes[i]);
      var cleared := fs.nodes[i].(used := 0, name := fs.nodes[i].name[0 := 0]);
      (Synced(fs.(nodes := fs.nodes[i := cleared], bitmap := Released(fs, i))), true)
  }
}
