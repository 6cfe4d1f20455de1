/** The filesystem driver of fs.c: the node table, the block bitmap and the disk, updated in place. */
module FileSystem {
  import opened Collections
  import opened Words
  import opened FsModel
  import opened FsOperations
  import opened FsInvariant
  import opened FsRefinement
  import opened FsPersistence

  ghost predicate NoneUsed(nodes: seq<Node>) {
    forall k :: 0 <= k < |nodes| ==> !Used(nodes[k])
  }

  lemma NothingFound(nodes: seq<Node>, path: CString)
    requires NoneUsed(nodes)
    ensures RecordsOk(nodes) && Find(nodes, path) == -1
  {
  }

  class Driver {
    const nodes: array<Node>
    const blockBitmap: array<byte>
    const disk: array<seq<byte>>
    var mounted: bool

    ghost function State(): Fs
      reads nodes, blockBitmap, disk
    {
      Fs(nodes[..], blockBitmap[..], disk[..])
    }

    /** The buffers have their sizes; a mounted filesystem is consistent and written back. */
    ghost predicate Valid()
      reads this, nodes, blockBitmap, disk
    {
      Shaped(State()) && (blockBitmap as object != disk) && (mounted ==> Mounted(State()))
    }

    /** No node is in use, as before the first mount. */
    ghost predicate Blank()
      reads nodes
    {
      NoneUsed(nodes[..])
    }

    /** The tables before the first mount, over a disk with any content. */
    constructor (disk: array<seq<byte>>)
      requires DiskShaped(disk[..])
      ensures Valid() && Blank() && !mounted && this.disk == disk && fresh(nodes) && fresh(blockBitmap)
    {
      var empty := Node(0, 0, 0, 0, 0, seq(32, _ => 0), seq(12, _ => 0));
      nodes := new Node[64](_ => empty);
      blockBitmap := new byte[4096](_ => 0);
      this.disk := disk;
      mounted := false;
      new;
      assert forall i :: 0 <= i < 64 ==> nodes[i] == empty;
    }

    method BitmapSet(sector: nat, used: bool)
      requires sector < 8 * blockBitmap.Length
      modifies blockBitmap
      ensures blockBitmap[..] == if used then SetBit(old(blockBitmap[..]), sector)
        else ClearBit(old(blockBitmap[..]), sector)
    {
      if used {
        blockBitmap[sector / 8] := RaiseByte(blockBitmap[sector / 8], sector % 8);
      } else {
        blockBitmap[sector / 8] := LowerByte(blockBitmap[sector / 8], sector % 8);
      }
    }

    method ReserveMetadata()
      requires blockBitmap.Length == 4096
      modifies blockBitmap
      ensures blockBitmap[..] == SetRange(old(blockBitmap[..]), 0, DATA_START)
    {
      var sector := 0;
      while sector < DATA_START
        invariant sector <= DATA_START
        invariant blockBitmap[..] == SetRange(old(blockBitmap[..]), 0, sector)
      {
        BitmapSet(sector, true);
        sector := sector + 1;
      }
    }

    /** Compares a stored name with a string, character by character up to the first NUL. */
    method SamePath(left: seq<byte>, right: CString) returns (same: bool)
      requires |Text(left)| < |left| || |right| < |left|
      ensures same <==> Text(left) == right
    {
      var index := 0;
      while left[index] != 0 && index < |right|
        invariant 0 <= index < |left| && index <= |right| && index <= |Text(left)|
        invariant forall k :: 0 <= k < index ==> left[k] == right[k]
        decreases |right| - index
      {
        TextCharacter(left, index);
        if left[index] != right[index] {
          assert Text(left)[index] != right[index];
          return false;
        }
        index := index + 1;
      }
      same := left[index] == if index < |right| then right[index] else 0;
      TextEnds(left, index);
      assert same ==> Text(left) == right;
    }

    /** The first used record with this path, or -1. */
    method FindNode(path: CString) returns (index: int)
      requires Shaped(State()) && RecordsOk(nodes[..])
      ensures index == Find(nodes[..], path)
    {
      index := 0;
      while index < 64
        invariant 0 <= index <= 64
        invariant Find(nodes[..], path) == FindFrom(nodes[..], path, index)
      {
        assert nodes[..][index] == nodes[index];
        if nodes[index].used != 0 {
          assert RecordOk(nodes[..][index]);
          var same := SamePath(nodes[index].name, path);
          if same {
            return;
          }
        }
        index := index + 1;
      }
      index := -1;
    }

    /** Copies a string and its NUL into a name field. */
    method CopyName(field: seq<byte>, source: CString) returns (r: seq<byte>)
      requires |field| == 32 && |source| < 32
      ensures r == WithName(field, source)
    {
      r := field;
      var index: nat := 0;
      hide WithName;
      NameStart(field, source);
      while index < |source| && index + 1 < 32
        invariant 0 <= index <= |source| && |r| == 32
        invariant r == Copied(field, source, index)
      {
        NameStep(field, source, index);
        r := r[index := source[index]];
        index := index + 1;
      }
      NameEnd(field, source);
      r := r[index := 0];
    }

    method SyncBitmap()
      requires Shaped(State())
      modifies disk
      ensures forall s: nat :: s < TOTAL_SECTORS ==>
        disk[s] == if 2 <= s < 10 then blockBitmap[..][512 * (s - 2)..512 * (s - 2) + 512] else old(disk[s])
    {
      for index: nat := 0 to 8
        invariant forall s: nat :: s < TOTAL_SECTORS ==>
          disk[s] == if 2 <= s < 2 + index then blockBitmap[..][512 * (s - 2)..512 * (s - 2) + 512] else old(disk[s])
      {
        assert blockBitmap[512 * index..512 * index + 512] == blockBitmap[..][512 * index..512 * index + 512];
        disk[2 + index] := blockBitmap[512 * index..512 * index + 512];
      }
    }

    /** Writes the node table and the bitmap to their sectors. */
    method FsSync()
      requires Shaped(State())
      modifies disk
      ensures Shaped(State()) && State() == Synced(old(State()))
    {
      hide NodeSector;
      hide Synced;
      ghost var before := State();
      SyncNodes();
      SyncBitmap();
      SyncedSectors(before, disk[..]);
    }

    method SyncNodes()
      requires Shaped(State())
      modifies disk
      ensures forall s: nat :: s < TOTAL_SECTORS ==>
        disk[s] == if 10 <= s < 18 then NodeSector(nodes[..], s - 10) else old(disk[s])
      ensures Shaped(State())
    {
      hide NodeSector;
      for index: nat := 0 to 8
        invariant forall s: nat :: s < TOTAL_SECTORS ==>
          disk[s] == if 10 <= s < 10 + index then NodeSector(nodes[..], s - 10) else old(disk[s])
      {
        disk[10 + index] := NodeSector(nodes[..], index);
      }
      assert forall s: nat :: s < TOTAL_SECTORS ==> |disk[..][s]| == |disk[s]| == 512 by {
        assert forall s: nat :: s < TOTAL_SECTORS ==> |old(disk[..])[s]| == 512;
      }
    }

    /** Fills an unused record and writes it back. */
    method UseNode(index: nat, path: CString, directory: bool)
      requires Shaped(State()) && index < 64 && ValidPath(path)
      modifies nodes, disk
      ensures Shaped(State()) && WellTyped(NewNode(old(nodes[index]), index, path, directory))
      ensures var updated := old(State()).nodes[index := NewNode(old(nodes[index]), index, path, directory)];
        TableTyped(updated) && State() == Synced(old(State()).(nodes := updated))
    {
      hide NodeSector;
      hide Synced;
      hide Text;
      NewNodeTyped(nodes[..][index], index, path, directory);
      var name := CopyName(nodes[index].name, path);
      nodes[index] := nodes[index].(used := 1, directory := if directory then 1 else 0, size := 0,
                                    dataSector := DATA_START + index * 2, dataBlocks := 0, name := name);
      assert nodes[..] == old(nodes[..])[index := NewNode(old(nodes[index]), index, path, directory)];
      FsSync();
    }

    /** Adds a directory or an empty file; -1 before anything is mounted. */
    method AddNode(path: CString, directory: bool) returns (result: int)
      requires Valid()
      modifies nodes, disk
      ensures Valid()
      ensures !mounted ==> result == -1 && State() == old(State())
      ensures mounted ==> (State(), result) == Create(old(State()), path, directory)
      ensures mounted ==> (TreeOf(State()), result) == CreateAt(old(TreeOf(State())), path, directory)
    {
      hide TreeUpTo;
      hide TreeOf;
      hide Synced;
      hide NewNode;
      hide Text;
      if mounted {
        CreateKeepsMounted(State(), path, directory);
        CreateRefines(State(), path, directory);
      }
      ghost var before := State();
      if !mounted || !ValidPath(path) {
        return -1;
      }
      var found := FindNode(path);
      if found >= 0 {
        return -1;
      }
      var index := 0;
      while index < 64
        invariant 0 <= index <= 64 && State() == before
        invariant FirstUnused(nodes[..], 0) == FirstUnused(nodes[..], index)
      {
        assert nodes[..][index] == nodes[index];
        if nodes[index].used == 0 {
          UseNode(index, path, directory);
          return 0;
        }
        index := index + 1;
      }
      result := -1;
    }

    /** Clears the tables, writes them back and then the superblock. */
    method FormatFs()
      requires Valid()
      modifies this, nodes, blockBitmap, disk
      ensures Valid() && mounted
      ensures State() == Format(old(State())) && TreeOf(State()) == map[Root() := Directory]
    {
      hide TreeUpTo;
      hide TreeOf;
      hide Synced;
      hide SuperSector;
      FormatMounts(State());
      ghost var before := State();
      ClearTables();
      assert State() == before.(nodes := BlankTable(before.nodes), bitmap := BlankBitmap());
      mounted := true;
      FsSync();
      disk[1] := SuperSector();
      assert State() == Format(before);
    }

    /** Empties every record, reserves the metadata sectors and makes the root directory. */
    method ClearTables()
      requires Shaped(State()) && blockBitmap as object != disk
      modifies nodes, blockBitmap
      ensures nodes[..] == BlankTable(old(nodes[..])) && blockBitmap[..] == BlankBitmap()
    {
      ghost var before := nodes[..];
      for index: nat := 0 to 64
        invariant forall i :: 0 <= i < index ==> WellTyped(before[i]) && nodes[i] == BlankNode(before[i])
        invariant forall i :: index <= i < 64 ==> nodes[i] == before[i]
      {
        assert WellTyped(before[index]);
        nodes[index] := BlankNode(nodes[index]);
      }
      for index: nat := 0 to 4096
        invariant forall i :: 0 <= i < 64 ==> WellTyped(before[i]) && nodes[i] == BlankNode(before[i])
        invariant forall i :: 0 <= i < index ==> blockBitmap[i] == 0
      {
        blockBitmap[index] := 0;
      }
      assert blockBitmap[..] == seq<byte>(4096, (_: nat) => 0);
      ReserveMetadata();
      assert WellTyped(before[0]);
      var name := CopyName(nodes[0].name, Root());
      nodes[0] := nodes[0].(used := 1, directory := 1, name := name);
      assert nodes[..] == BlankTable(before);
    }

    /** Checks the superblock, reads the bitmap and the node table, and looks for the root. */
    method FsMount() returns (ok: bool)
      requires Valid()
      modifies this, nodes, blockBitmap
      ensures Shaped(State()) && disk[..] == old(disk[..])
      ensures ok <==> Mount(old(disk[..])).Some?
      ensures ok ==> mounted && (State().nodes, State().bitmap) == Mount(old(disk[..])).value
      ensures !ok ==> Valid()
      ensures old(Mounted(State())) ==> ok && Valid() && State() == old(State())
    {
      hide TreeUpTo;
      hide Synced;
      hide SuperSector;
      hide DecodeNode;
      if Mounted(State()) {
        MountRestores(State());
      }
      if !SuperOk(disk[1]) {
        return false;
      }
      ReadTables();
      var rootName := SamePath(nodes[0].name, Root());
      mounted := nodes[0].used != 0 && nodes[0].directory != 0 && rootName;
      ok := mounted;
    }

    /** At start-up: mounts a disk left by an earlier run, formats any disk that does not mount. */
    method FsInit()
      requires Valid()
      modifies this, nodes, blockBitmap, disk
      ensures mounted && (Valid() <==> Mounted(State()))
      ensures old(Mount(disk[..])).None? ==> Valid() && TreeOf(State()) == map[Root() := Directory]
      ensures var found := old(Mount(disk[..]));
        found.Some? ==> State() == Fs(found.value.0, found.value.1, old(disk[..]))
    {
      hide Mount;
      hide Mounted;
      hide TreeOf;
      var ok := FsMount();
      if !ok {
        FormatFs();
      }
    }

    /** Reads sectors 2 to 17 into the tables. */
    method ReadTables()
      requires Shaped(State()) && blockBitmap as object != disk
      modifies nodes, blockBitmap
      ensures Shaped(State())
      ensures nodes[..] == TableOn(disk[..]) && blockBitmap[..] == BitmapOn(disk[..])
    {
      ReadBitmap();
      ReadNodes();
    }

    method ReadBitmap()
      requires Shaped(State()) && blockBitmap as object != disk
      modifies blockBitmap
      ensures blockBitmap[..] == BitmapOn(disk[..])
    {
      hide BitmapOn;
      ghost var bitmap := BitmapOn(disk[..]);
      for index: nat := 0 to 8
        invariant blockBitmap[..512 * index] == bitmap[..512 * index]
      {
        var sector := disk[2 + index];
        assert |disk[..][2 + index]| == 512;
        for b: nat := 0 to 512
          invariant blockBitmap[..512 * index + b] == bitmap[..512 * index + b]
        {
          BitmapByte(disk[..], index, b);
          blockBitmap[512 * index + b] := sector[b];
        }
      }
      assert blockBitmap[..4096] == blockBitmap[..];
    }

    method ReadNodes()
      requires Shaped(State())
      modifies nodes
      ensures Shaped(State()) && nodes[..] == TableOn(disk[..])
    {
      hide DecodeNode;
      hide TableOn;
      for i: nat := 0 to 64
        invariant nodes[..i] == TableOn(disk[..])[..i]
      {
        var sector := disk[10 + i / 8];
        assert |disk[..][10 + i / 8]| == 512;
        RecordOn(disk[..], i);
        nodes[i] := DecodeNode(sector[64 * (i % 8)..64 * (i % 8) + 64]);
      }
      TableIsTyped(disk[..]);
      assert nodes[..64] == nodes[..];
    }

    /** Marks or releases a run of sectors, one bit at a time. */
    method SetBlocks(sector: nat, blocks: nat, used: bool)
      requires blockBitmap.Length == 4096 && sector + blocks <= TOTAL_SECTORS
      modifies blockBitmap
      ensures blockBitmap[..] == if used then SetRange(old(blockBitmap[..]), sector, blocks)
                                 else ClearRange(old(blockBitmap[..]), sector, blocks)
    {
      for block: nat := 0 to blocks
        invariant blockBitmap[..] == if used then SetRange(old(blockBitmap[..]), sector, block)
                                     else ClearRange(old(blockBitmap[..]), sector, block)
      {
        BitmapSet(sector + block, used);
      }
    }

    /** Whether a run of sectors is free. */
    method IsRoom(sector: nat, blocks: nat) returns (free: bool)
      requires blockBitmap.Length == 4096 && sector + blocks <= TOTAL_SECTORS
      ensures free <==> RunFree(blockBitmap[..], sector, blocks)
    {
      free := true;
      for block: nat := 0 to blocks
        invariant free <==> RunFree(blockBitmap[..], sector, block)
      {
        var s := sector + block;
        assert IsSet(blockBitmap[..], s) <==> Bit(blockBitmap[s / 8], s % 8);
        if Bit(blockBitmap[s / 8], s % 8) {
          free := false;
        }
      }
    }

    /** First fit from the start of the data area; zero when nothing fits. */
    method FindRoom(blocks: nat) returns (firstSector: nat)
      requires blockBitmap.Length == 4096
      ensures firstSector == match FirstFit(blockBitmap[..], blocks, DATA_START) case None => 0 case Some(s) => s
    {
      firstSector := 0;
      var sectorNumber := DATA_START;
      while sectorNumber + blocks <= TOTAL_SECTORS
        invariant FirstFit(blockBitmap[..], blocks, DATA_START) == FirstFit(blockBitmap[..], blocks, sectorNumber)
        decreases TOTAL_SECTORS - sectorNumber
      {
        var free := IsRoom(sectorNumber, blocks);
        if free {
          return sectorNumber;
        }
        sectorNumber := sectorNumber + 1;
      }
    }

    /** Writes the blocks of `data` from `sector` on and marks them used. */
    method WriteBlocks(sector: nat, data: seq<byte>)
      requires blockBitmap.Length == 4096 && disk.Length == TOTAL_SECTORS && sector + Blocks(|data|) <= TOTAL_SECTORS
      modifies blockBitmap, disk
      ensures disk[..] == WithBlocks(old(disk[..]), sector, data)
      ensures blockBitmap[..] == SetRange(old(blockBitmap[..]), sector, Blocks(|data|))
    {
      hide SetBit;
      hide BlockOf;
      hide SetRange;
      hide Overlaid;
      SetRangeNone(blockBitmap[..], sector);
      OverlaidNone(disk[..], sector, data);
      for block: nat := 0 to Blocks(|data|)
        invariant disk[..] == Overlaid(old(disk[..]), sector, data, block)
        invariant blockBitmap[..] == SetRange(old(blockBitmap[..]), sector, block)
      {
        SetRangeNext(old(blockBitmap[..]), sector, block);
        OverlaidNext(old(disk[..]), sector, data, block);
        var buffer := Block(data, block);
        disk[sector + block] := buffer;
        BitmapSet(sector + block, true);
      }
      OverlaidAll(old(disk[..]), sector, data);
    }

    /** One sector of data, padded with zeros. */
    method Block(data: seq<byte>, block: nat) returns (buffer: seq<byte>)
      ensures buffer == BlockOf(data, block)
    {
      buffer := [];
      for b: nat := 0 to 512
        invariant buffer == BlockOf(data, block)[..b]
      {
        var offset := block * 512 + b;
        BlockByte(data, block, b);
        buffer := buffer + [if offset < |data| then data[offset] else 0];
      }
    }

    /** Replaces the contents of a file; -1 when the path is no file or the data are missing or too long. */
    method FsWrite(path: CString, data: Option<seq<byte>>) returns (result: int)
      requires Valid() && (mounted || Blank())
      modifies nodes, blockBitmap, disk
      ensures Valid()
      ensures !mounted ==> result == -1 && State() == old(State())
      ensures mounted ==> (State(), result) == Write(old(State()), path, data)
      ensures mounted ==> (TreeOf(State()), result) == WriteAt(old(TreeOf(State())), path, data)
    {
      hide TreeUpTo;
      hide TreeOf;
      hide Synced;
      hide FirstFit;
      hide Text;
      ghost var before := State();
      if mounted {
        WriteKeepsMounted(before, path, data);
        WriteRefines(before, path, data);
      } else {
        NothingFound(nodes[..], path);
      }
      var index := FindNode(path);
      if index < 0 || nodes[index].directory != 0 || data.None? || |data.value| > 1024 {
        return -1;
      }
      assert RecordOk(before.nodes[index]);
      var blocks := (|data.value| + 511) / 512;
      SetBlocks(nodes[index].dataSector, nodes[index].dataBlocks, false);
      var firstSector := FindRoom(blocks);
      if blocks != 0 && firstSector == 0 {
        return -1;
      }
      FirstFitSucceeds(before, index, blocks);
      StoredShaped(before, index, firstSector, data.value);
      WriteBlocks(firstSector, data.value);
      nodes[index] := nodes[index].(size := |data.value|, dataSector := firstSector, dataBlocks := blocks);
      assert State() == Stored(before, index, firstSector, data.value);
      FsSync();
      result := |data.value|;
    }

    method ReadBytes(n: Node, length: nat) returns (data: seq<byte>)
      requires DiskShaped(disk[..]) && n.dataSector + Blocks(n.size) <= TOTAL_SECTORS && length <= n.size
      ensures data == Content(disk[..], n)[..length]
    {
      ContentSize(disk[..], n);
      ghost var content := Content(disk[..], n);
      data := [];
      for b: nat := 0 to length
        invariant data == content[..b]
      {
        ContentByte(disk[..], n, b);
        var sector := disk[n.dataSector + b / 512];
        data := data + [sector[b % 512]];
      }
    }

    /** Reads up to `capacity` bytes of a file, a byte at a time from its sectors. */
    method FsRead(path: CString, hasBuffer: bool, capacity: nat) returns (result: Option<seq<byte>>)
      requires Valid() && (mounted || Blank())
      ensures !mounted ==> result.None?
      ensures mounted ==> result == Read(State(), path, hasBuffer, capacity)
      ensures mounted ==> result == ReadAt(TreeOf(State()), path, hasBuffer, capacity)
    {
      hide TreeUpTo;
      hide TreeOf;
      hide Text;
      hide Synced;
      if mounted {
        ReadRefines(State(), path, hasBuffer, capacity);
      } else {
        NothingFound(nodes[..], path);
      }
      var index := FindNode(path);
      if index < 0 || nodes[index].directory != 0 || !hasBuffer {
        return None;
      }
      assert RecordOk(nodes[..][index]);
      var length := if nodes[index].size < capacity then nodes[index].size else capacity;
      var data := ReadBytes(nodes[index], length);
      assert data == Prefix(Content(disk[..], nodes[index]), capacity);
      result := Some(data);
    }

    /** Removes any path but the root. */
    method FsRemove(path: CString) returns (ok: bool)
      requires Valid() && (mounted || Blank())
      modifies nodes, blockBitmap, disk
      ensures Valid()
      ensures !mounted ==> !ok && State() == old(State())
      ensures mounted ==> (State(), ok) == Remove(old(State()), path)
      ensures mounted ==> (TreeOf(State()), ok) == RemoveAt(old(TreeOf(State())), path)
    {
      hide TreeUpTo;
      hide TreeOf;
      hide Synced;
      hide Text;
      ghost var before := State();
      if mounted {
        RemoveKeepsMounted(before, path);
        RemoveRefines(before, path);
      } else {
        NothingFound(nodes[..], path);
      }
      var index := FindNode(path);
      if index <= 0 {
        return false;
      }
      assert RecordOk(before.nodes[index]);
      SetBlocks(nodes[index].dataSector, nodes[index].dataBlocks, false);
      nodes[index] := nodes[index].(used := 0, name := nodes[index].name[0 := 0]);
      FsSync();
      ok := true;
    }
  }

  /** A field with the first `n` characters of a name copied into it. */
  function Copied(field: seq<byte>, source: seq<byte>, n: nat): (r: seq<byte>)
    requires |field| == 32 && n <= |source| < 32
    ensures |r| == 32
  {
    source[..n] + field[n..]
  }

  lemma NameStart(field: seq<byte>, source: seq<byte>)
    requires |field| == 32 && |source| < 32
    ensures Copied(field, source, 0) == field
  {
  }

  lemma NameStep(field: seq<byte>, source: seq<byte>, n: nat)
    requires |field| == 32 && n < |source| < 32
    ensures Copied(field, source, n)[n := source[n]] == Copied(field, source, n + 1)
  {
  }

  lemma NameEnd(field: seq<byte>, source: CString)
    requires |field| == 32 && |source| < 32
    ensures Copied(field, source, |source|)[|source| := 0] == WithName(field, source)
  {
    assert source[..|source|] == source;
  }

  lemma RecordOn(disk: seq<seq<byte>>, i: nat)
    requires DiskShaped(disk) && i < 64
    ensures 10 + i / 8 < 18 && i % 8 < 8
    ensures TableOn(disk)[..i + 1] ==
      TableOn(disk)[..i] + [DecodeNode(disk[10 + i / 8][64 * (i % 8)..64 * (i % 8) + 64])]
  {
    hide DecodeNode;
    assert TableOn(disk)[i] == NodeOn(disk, i);
  }

  lemma SetRangeNone(bitmap: seq<byte>, sector: nat)
    requires |bitmap| == 4096 && sector <= TOTAL_SECTORS
    ensures SetRange(bitmap, sector, 0) == bitmap
  {
  }

  lemma SetRangeNext(bitmap: seq<byte>, sector: nat, n: nat)
    requires |bitmap| == 4096 && sector + n < TOTAL_SECTORS
    ensures SetRange(bitmap, sector, n + 1) == SetBit(SetRange(bitmap, sector, n), sector + n)
  {
  }

  lemma TableIsTyped(disk: seq<seq<byte>>)
    requires DiskShaped(disk)
    ensures TableTyped(TableOn(disk))
  {
    forall i: nat | i < 64 ensures WellTyped(TableOn(disk)[i]) {
      DecodedIsWellTyped(disk[10 + i / 8][64 * (i % 8)..64 * (i % 8) + 64]);
    }
  }

  lemma BlockByte(data: seq<byte>, block: nat, b: nat)
    requires b < 512
    ensures BlockOf(data, block)[..b + 1]
         == BlockOf(data, block)[..b] + [if block * 512 + b < |data| then data[block * 512 + b] else 0]
  {
  }

  lemma ContentSize(disk: seq<seq<byte>>, n: Node)
    requires DiskShaped(disk) && n.dataSector + Blocks(n.size) <= TOTAL_SECTORS
    ensures |Content(disk, n)| == n.size
  {
  }

  lemma ContentByte(disk: seq<seq<byte>>, n: Node, b: nat)
    requires DiskShaped(disk) && n.dataSector + Blocks(n.size) <= TOTAL_SECTORS && b < n.size
    ensures n.dataSector + b / 512 < TOTAL_SECTORS && |disk[n.dataSector + b / 512]| == 512
    ensures |Content(disk, n)| == n.size && Content(disk, n)[b] == disk[n.dataSector + b / 512][b % 512]
    ensures Content(disk, n)[..b + 1] == Content(disk, n)[..b] + [disk[n.dataSector + b / 512][b % 512]]
  {
  }

  /** A disk with the first `n` blocks of some data written. */
  ghost function Overlaid(disk: seq<seq<byte>>, sector: nat, data: seq<byte>, n: nat): (r: seq<seq<byte>>)
    ensures |r| == |disk|
  {
    seq(|disk|, (s: nat) requires s < |disk| => if sector <= s < sector + n then BlockOf(data, s - sector) else disk[s])
  }

  lemma OverlaidNone(disk: seq<seq<byte>>, sector: nat, data: seq<byte>)
    ensures Overlaid(disk, sector, data, 0) == disk
  {
  }

  lemma OverlaidNext(disk: seq<seq<byte>>, sector: nat, data: seq<byte>, n: nat)
    requires sector + n < |disk|
    ensures Overlaid(disk, sector, data, n + 1) == Overlaid(disk, sector, data, n)[sector + n := BlockOf(data, n)]
  {
    hide BlockOf;
  }

  lemma OverlaidAll(disk: seq<seq<byte>>, sector: nat, data: seq<byte>)
    ensures Overlaid(disk, sector, data, Blocks(|data|)) == WithBlocks(disk, sector, data)
  {
    hide BlockOf;
  }

  lemma BitmapByte(disk: seq<seq<byte>>, k: nat, b: nat)
    requires DiskShaped(disk) && k < 8 && b < 512
    ensures BitmapOn(disk)[512 * k + b] == disk[2 + k][b]
  {
  }

  lemma SyncedSectors(fs: Fs, disk: seq<seq<byte>>)
    requires Shaped(fs) && |disk| == TOTAL_SECTORS
    requires forall s: nat :: s < TOTAL_SECTORS ==>
      disk[s] == if 2 <= s < 10 then fs.bitmap[512 * (s - 2)..512 * (s - 2) + 512]
                 else if 10 <= s < 18 then NodeSector(fs.nodes, s - 10)
                 else fs.disk[s]
    ensures fs.(disk := disk) == Synced(fs)
  {
    hide NodeSector;
    assert disk == Synced(fs).disk;
  }

  lemma TextCharacter(name: seq<byte>, i: nat)
    requires i < |name| && name[i] != 0 && i <= |Text(name)|
    ensures i < |Text(name)|
  {
  }

  lemma TextEnds(name: seq<byte>, i: nat)
    requires i < |name| && i <= |Text(name)|
    ensures name[i] == 0 <==> |Text(name)| == i
  {
    if i < |Text(name)| {
      assert Text(name)[i] in Text(name);
    }
  }
}
