/** The invariant of every mounted filesystem: what each operation keeps, and why first fit never fails. */
module FsInvariant {
  import opened Collections
  import opened Words
  import opened FsModel
  import opened FsOperations

  // ----- Names -----

  lemma {:induction false} TextOfName(field: seq<byte>, path: CString)
    requires |path| < |field| && field[..|path|] == path && field[|path|] == 0
    ensures Text(field) == path
  {
    if path != [] {
      assert field[0] == path[0];
      assert field[1..][..|path| - 1] == path[1..];
      TextOfName(field[1..], path[1..]);
    } 
  }

  lemma NewNodeOk(n: Node, i: nat, path: CString, directory: bool)
    requires WellTyped(n) && ValidPath(path) && i < 64
    ensures var r := NewNode(n, i, path, directory);
      RecordOk(r) && WellTyped(r) && Used(r) && Text(r.name) == path && r.dataBlocks == 0 && r.size == 0
      && (IsDirectory(r) <==> directory)
  {
    TextOfName(WithName(n.name, path), path);
  }

  // ----- The pigeonhole: there is always room -----

  /** The data sectors below `limit` whose bit is set. */
  ghost function SetBelow(bitmap: seq<byte>, limit: nat): set<nat>
    requires |bitmap| == 4096 && limit <= TOTAL_SECTORS
  {
    set s: nat | s < limit && DATA_START <= s && IsSet(bitmap, s)
  }

  /** If each of the first `n` pairs of data sectors has a set bit, there are at least `n` set bits. */
  lemma {:induction false} PairsNeedBits(bitmap: seq<byte>, n: nat)
    requires |bitmap| == 4096 && DATA_START + 2 * n <= TOTAL_SECTORS
    requires forall p: nat :: p < n ==> IsSet(bitmap, DATA_START + 2 * p) || IsSet(bitmap, DATA_START + 2 * p + 1)
    ensures |SetBelow(bitmap, DATA_START + 2 * n)| >= n
  {
    hide IsSet;
    if n > 0 {
      PairsNeedBits(bitmap, n - 1);
      var s := DATA_START + 2 * (n - 1);
      var x := if IsSet(bitmap, s) then s else s + 1;
      var before, after := SetBelow(bitmap, s), SetBelow(bitmap, s + 2);
      assert before + {x} <= after && x !in before;
      SubsetSize(before + {x}, after);
    }
  }

  function ExtentSet(n: Node): (r: set<nat>)
    ensures forall s :: s in r <==> InExtent(n, s)
  {
    set s: nat | n.dataSector <= s < n.dataSector + n.dataBlocks && InExtent(n, s)
  }

  lemma ExtentSize(n: Node)
    requires n.dataBlocks <= 2
    ensures |ExtentSet(n)| <= 2
  {
    SubsetSize(ExtentSet(n), {n.dataSector, n.dataSector + 1});
  }

  /** The extents of the used records among the first `n`, leaving out record `skip`. */
  function OtherExtents(nodes: seq<Node>, skip: nat, n: nat): set<nat>
    requires n <= |nodes|
  {
    if n == 0 then {}
    else if Used(nodes[n - 1]) && n - 1 != skip then OtherExtents(nodes, skip, n - 1) + ExtentSet(nodes[n - 1])
    else OtherExtents(nodes, skip, n - 1)
  }

  lemma {:induction false} OtherExtentsMember(nodes: seq<Node>, skip: nat, n: nat, j: nat, s: nat)
    requires n <= |nodes| && j < n && Used(nodes[j]) && j != skip && InExtent(nodes[j], s)
    ensures s in OtherExtents(nodes, skip, n)
  {
    if j < n - 1 {
      OtherExtentsMember(nodes, skip, n - 1, j, s);
    }
  }

  lemma RecordBlocks(nodes: seq<Node>, i: nat)
    requires i < |nodes| && RecordsOk(nodes) && Used(nodes[i])
    ensures nodes[i].dataBlocks <= 2 && (IsDirectory(nodes[i]) ==> nodes[i].dataBlocks == 0)
  {
    assert RecordOk(nodes[i]);
  }

  /** The root has no blocks, so `n` records other than `skip` use at most `2 * (n - 2)` sectors. */
  lemma {:induction false} OtherExtentsSize(nodes: seq<Node>, skip: nat, n: nat)
    requires 0 < n <= |nodes| && 0 < skip && RecordsOk(nodes) && RootOk(nodes)
    ensures |OtherExtents(nodes, skip, n)| <= 2 * (if skip < n then n - 2 else n - 1)
  {
    hide RecordOk;
    if Used(nodes[n - 1]) {
      RecordBlocks(nodes, n - 1);
    }
    if n == 1 {
      assert ExtentSet(nodes[0]) == {};
      assert OtherExtents(nodes, skip, 0) == {};
    } else {
      OtherExtentsSize(nodes, skip, n - 1);
      if Used(nodes[n - 1]) && n - 1 != skip {
        ExtentSize(nodes[n - 1]);
        UnionSize(OtherExtents(nodes, skip, n - 1), ExtentSet(nodes[n - 1]));
      }
    }
  }

  ghost predicate TakenByOther(nodes: seq<Node>, i: nat, sector: nat) {
    exists j :: 0 <= j < |nodes| && j != i && Used(nodes[j]) && InExtent(nodes[j], sector)
  }

  /** After a file's own blocks are released, what is set in the data area belongs to other records. */
  lemma ReleasedBits(fs: Fs, i: nat, s: nat)
    requires Inv(fs) && i < 64 && Used(fs.nodes[i]) && s < TOTAL_SECTORS
    ensures fs.nodes[i].dataSector + fs.nodes[i].dataBlocks <= TOTAL_SECTORS
    ensures IsSet(Released(fs, i), s) <==> s < DATA_START || TakenByOther(fs.nodes, i, s)
  {
    assert RecordOk(fs.nodes[i]);
    ClearRangeClears(fs.bitmap, fs.nodes[i].dataSector, fs.nodes[i].dataBlocks, s);
    if InExtent(fs.nodes[i], s) {
      forall j | 0 <= j < 64 && j != i && Used(fs.nodes[j]) ensures !InExtent(fs.nodes[j], s) {
      }
    } else if Taken(fs.nodes, s) {
      var j :| 0 <= j < 64 && Used(fs.nodes[j]) && InExtent(fs.nodes[j], s);
      assert j != i;
    }
  }

  /** At most 62 other files of at most two sectors cannot spoil 125 pairs of sectors. */
  lemma SomePairFree(fs: Fs, i: nat)
    requires Inv(fs) && 0 < i < 64 && Used(fs.nodes[i])
    ensures fs.nodes[i].dataSector + fs.nodes[i].dataBlocks <= TOTAL_SECTORS
    ensures exists p: nat ::
      p < 125 && !IsSet(Released(fs, i), DATA_START + 2 * p) && !IsSet(Released(fs, i), DATA_START + 2 * p + 1)
  {
    hide Released;
    hide IsSet;
    ReleasedBits(fs, i, 0);
    var bitmap := Released(fs, i);
    if forall p: nat :: p < 125 ==> IsSet(bitmap, DATA_START + 2 * p) || IsSet(bitmap, DATA_START + 2 * p + 1) {
      PairsNeedBits(bitmap, 125);
      forall s | s in SetBelow(bitmap, 268) ensures s in OtherExtents(fs.nodes, i, 64) {
        ReleasedBits(fs, i, s);
        var j :| 0 <= j < 64 && j != i && Used(fs.nodes[j]) && InExtent(fs.nodes[j], s);
        OtherExtentsMember(fs.nodes, i, 64, j, s);
      }
      SubsetSize(SetBelow(bitmap, 268), OtherExtents(fs.nodes, i, 64));
      OtherExtentsSize(fs.nodes, i, 64);
    }
  }

  /** First fit for a file always succeeds, at sector 266 or below. */
  lemma FirstFitSucceeds(fs: Fs, i: nat, blocks: nat)
    requires Inv(fs) && 0 < i < 64 && Used(fs.nodes[i]) && blocks <= 2
    ensures fs.nodes[i].dataSector + fs.nodes[i].dataBlocks <= TOTAL_SECTORS
    ensures var fit := FirstFit(Released(fs, i), blocks, DATA_START); fit.Some? && fit.value <= 266
  {
    hide Released;
    hide IsSet;
    SomePairFree(fs, i);
    var bitmap := Released(fs, i);
    var p: nat :| p < 125 && !IsSet(bitmap, DATA_START + 2 * p) && !IsSet(bitmap, DATA_START + 2 * p + 1);
    assert RunFree(bitmap, DATA_START + 2 * p, blocks);
  }

  // ----- What every operation keeps -----

  /** Replacing one record and adjusting the bitmap to match keeps the invariant. */
  lemma ReplaceRecord(fs: Fs, i: nat, r: Node, bitmap: seq<byte>, disk: seq<seq<byte>>)
    requires Inv(fs) && 0 < i < 64 && WellTyped(r) && RecordOk(r)
    requires |bitmap| == 4096 && |disk| == TOTAL_SECTORS && forall s :: 0 <= s < TOTAL_SECTORS ==> |disk[s]| == 512
    requires Used(r) ==> forall j :: 0 <= j < 64 && j != i && Used(fs.nodes[j]) ==>
      Text(fs.nodes[j].name) != Text(r.name)
    requires Used(r) ==>
      forall j, s: nat :: 0 <= j < 64 && j != i && Used(fs.nodes[j]) && InExtent(fs.nodes[j], s) ==> !InExtent(r, s)
    requires forall s: nat :: s < TOTAL_SECTORS ==>
      (IsSet(bitmap, s) <==> s < DATA_START || (Used(r) && InExtent(r, s)) || TakenByOther(fs.nodes, i, s))
    ensures Inv(Fs(fs.nodes[i := r], bitmap, disk))
  {
    hide IsSet;
    hide Text;
    hide WellTyped;
    hide RecordOk;
    var nodes := fs.nodes[i := r];
    var fs' := Fs(nodes, bitmap, disk);
    forall s: nat | s < TOTAL_SECTORS ensures IsSet(bitmap, s) <==> s < DATA_START || Taken(nodes, s) {
      if Taken(nodes, s) {
        var j :| 0 <= j < 64 && Used(nodes[j]) && InExtent(nodes[j], s);
        assert j == i || nodes[j] == fs.nodes[j];
      }
      if Used(r) && InExtent(r, s) {
        assert nodes[i] == r;
      }
      if TakenByOther(fs.nodes, i, s) {
        var j :| 0 <= j < 64 && j != i && Used(fs.nodes[j]) && InExtent(fs.nodes[j], s);
        assert nodes[j] == fs.nodes[j];
      }
    }
  }

  lemma SyncKeepsInv(fs: Fs)
    requires Inv(fs)
    ensures Inv(Synced(fs))
  {
  }

  lemma CreateKeepsInv(fs: Fs, path: CString, directory: bool)
    requires Inv(fs)
    ensures Inv(Create(fs, path, directory).0)
  {
    if Create(fs, path, directory).1 == 0 {
      var i := FirstUnused(fs.nodes, 0);
      NewNodeOk(fs.nodes[i], i, path, directory);
      var r := NewNode(fs.nodes[i], i, path, directory);
      forall s: nat | s < TOTAL_SECTORS
        ensures IsSet(fs.bitmap, s) <==> s < DATA_START || TakenByOther(fs.nodes, i, s)
      {
      }
      ReplaceRecord(fs, i, r, fs.bitmap, fs.disk);
      SyncKeepsInv(fs.(nodes := fs.nodes[i := r]));
    }
  }

  lemma WriteKeepsInv(fs: Fs, path: CString, data: Option<seq<byte>>)
    requires Inv(fs)
    ensures Inv(Write(fs, path, data).0)
    ensures var i := Find(fs.nodes, path);
      Write(fs, path, data).1 == -1 <==> i < 0 || IsDirectory(fs.nodes[i]) || data.None? || |data.value| > 1024
    ensures Write(fs, path, data).1 == -1 ==> Write(fs, path, data).0 == fs
  {
    var i := Find(fs.nodes, path);
    if i >= 0 && !IsDirectory(fs.nodes[i]) && data.Some? && |data.value| <= 1024 {
      assert RecordOk(fs.nodes[i]);
      FirstFitSucceeds(fs, i, Blocks(|data.value|));
      var sector := FirstFit(Released(fs, i), Blocks(|data.value|), DATA_START).value;
      StoredKeepsInv(fs, i, sector, data.value);
      SyncKeepsInv(Stored(fs, i, sector, data.value));
    }
  }

  lemma StoredKeepsInv(fs: Fs, i: nat, sector: nat, data: seq<byte>)
    requires Inv(fs) && 0 < i < 64 && Used(fs.nodes[i]) && !IsDirectory(fs.nodes[i])
    requires |data| <= 1024 && DATA_START <= sector && sector + Blocks(|data|) <= TOTAL_SECTORS
    requires fs.nodes[i].dataSector + fs.nodes[i].dataBlocks <= TOTAL_SECTORS
    requires RunFree(Released(fs, i), sector, Blocks(|data|))
    ensures Inv(Stored(fs, i, sector, data))
  {
    hide IsSet;
    hide Text;
    assert RecordOk(fs.nodes[i]);
    var fs' := Stored(fs, i, sector, data);
    StoredShaped(fs, i, sector, data);
    var r := fs'.nodes[i];
    forall s: nat | s < TOTAL_SECTORS
      ensures IsSet(fs'.bitmap, s) <==> s < DATA_START || InExtent(r, s) || TakenByOther(fs.nodes, i, s)
    {
      ReleasedBits(fs, i, s);
      SetRangeSets(Released(fs, i), sector, Blocks(|data|), s);
    }
    forall j, s: nat | 0 <= j < 64 && j != i && Used(fs.nodes[j]) && InExtent(fs.nodes[j], s) ensures !InExtent(r, s) {
      assert RecordOk(fs.nodes[j]);
      ReleasedBits(fs, i, s);
    }
    ReplaceRecord(fs, i, r, fs'.bitmap, fs'.disk);
  }

  lemma RemoveKeepsInv(fs: Fs, path: CString)
    requires Inv(fs)
    ensures Inv(Remove(fs, path).0)
  {
    var i := Find(fs.nodes, path);
    if i > 0 {
      assert RecordOk(fs.nodes[i]);
      var r := fs.nodes[i].(used := 0, name := fs.nodes[i].name[0 := 0]);
      forall s: nat | s < TOTAL_SECTORS
        ensures IsSet(Released(fs, i), s) <==> s < DATA_START || TakenByOther(fs.nodes, i, s)
      {
        ReleasedBits(fs, i, s);
      }
      ReplaceRecord(fs, i, r, Released(fs, i), fs.disk);
      SyncKeepsInv(fs.(nodes := fs.nodes[i := r], bitmap := Released(fs, i)));
    }
  }
}
