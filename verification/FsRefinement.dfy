/** The filesystem as its users see it: a finite map from paths to directories and byte
    sequences, which every operation of fs.c updates at one path. */
module FsRefinement {
  import opened Collections
  import opened Words
  import opened FsModel
  import opened FsOperations
  import opened FsInvariant

  datatype Entry = Directory | File(data: seq<byte>)

  type Tree = map<CString, Entry>

  // ----- The operations on the map -----

  function CreateAt(tree: Tree, path: CString, directory: bool): (Tree, int) {
    if !ValidPath(path) || path in tree || |tree| == 64 then (tree, -1)
    else (tree[path := if directory then Directory else File([])], 0)
  }

  function WriteAt(tree: Tree, path: CString, data: Option<seq<byte>>): (Tree, int) {
    if path !in tree || tree[path].Directory? || data.None? || |data.value| > 1024 then (tree, -1)
    else (tree[path := File(data.value)], |data.value|)
  }

  function ReadAt(tree: Tree, path: CString, hasBuffer: bool, capacity: nat): Option<seq<byte>> {
    if path !in tree || tree[path].Directory? || !hasBuffer then None
    else Some(Prefix(tree[path].data, capacity))
  }

  function RemoveAt(tree: Tree, path: CString): (Tree, bool) {
    if path !in tree || path == Root() then (tree, false) else (tree - {path}, true)
  }

  // ----- The map a state stands for -----

  function EntryOf(disk: seq<seq<byte>>, n: Node): Entry
    requires |disk| == TOTAL_SECTORS && (forall s :: 0 <= s < TOTAL_SECTORS ==> |disk[s]| == 512)
    requires Used(n) && RecordOk(n)
  {
    if IsDirectory(n) then Directory else File(Content(disk, n))
  }

  ghost function TreeUpTo(fs: Fs, n: nat): Tree
    requires Shaped(fs) && RecordsOk(fs.nodes) && n <= 64
  {
    if n == 0 then map[]
    else if Used(fs.nodes[n - 1]) then
      assert RecordOk(fs.nodes[n - 1]);
      TreeUpTo(fs, n - 1)[Text(fs.nodes[n - 1].name) := EntryOf(fs.disk, fs.nodes[n - 1])]
    else TreeUpTo(fs, n - 1)
  }

  ghost function TreeOf(fs: Fs): Tree
    requires Shaped(fs) && RecordsOk(fs.nodes)
  {
    TreeUpTo(fs, 64)
  }

  lemma {:induction false} TreeHas(fs: Fs, n: nat, path: CString)
    requires Inv(fs) && n <= 64
    ensures path in TreeUpTo(fs, n) <==> exists j :: 0 <= j < n && Used(fs.nodes[j]) && Text(fs.nodes[j].name) == path
  {
    if n > 0 {
      TreeHas(fs, n - 1, path);
    }
  }

  lemma {:induction false} TreeAt(fs: Fs, n: nat, j: nat)
    requires Inv(fs) && j < n <= 64 && Used(fs.nodes[j])
    ensures RecordOk(fs.nodes[j])
    ensures Text(fs.nodes[j].name) in TreeUpTo(fs, n)
    ensures TreeUpTo(fs, n)[Text(fs.nodes[j].name)] == EntryOf(fs.disk, fs.nodes[j])
  {
    assert RecordOk(fs.nodes[j]);
    if j < n - 1 {
      TreeAt(fs, n - 1, j);
    }
  }

  /** The map has as many paths as there are used records. */
  lemma {:induction false} TreeSize(fs: Fs, n: nat)
    requires Inv(fs) && n <= 64
    ensures |TreeUpTo(fs, n)| <= n
    ensures |TreeUpTo(fs, n)| == n <==> forall j :: 0 <= j < n ==> Used(fs.nodes[j])
  {
    if n > 0 {
      TreeSize(fs, n - 1);
      if Used(fs.nodes[n - 1]) {
        TreeHas(fs, n - 1, Text(fs.nodes[n - 1].name));
      }
    }
  }

  /** What a search finds is what the map has. */
  lemma FindIsLookup(fs: Fs, path: CString)
    requires Inv(fs)
    ensures Find(fs.nodes, path) >= 0 <==> path in TreeOf(fs)
    ensures var i := Find(fs.nodes, path);
      i >= 0 ==> RecordOk(fs.nodes[i]) && TreeOf(fs)[path] == EntryOf(fs.disk, fs.nodes[i])
  {
    TreeHas(fs, 64, path);
    var i := Find(fs.nodes, path);
    if i >= 0 {
      TreeAt(fs, 64, i);
    }
  }

  lemma FindRoot(fs: Fs, path: CString)
    requires Inv(fs)
    ensures Find(fs.nodes, path) == 0 <==> path == Root()
  {
    if path == Root() {
      var i := Find(fs.nodes, path);
      assert i >= 0;
    }
  }

  // ----- One record changes, one path changes -----

  predicate Names(n: Node, path: CString) {
    Used(n) && Text(n.name) == path
  }

  /** Every other file's bytes are the same. */
  ghost predicate SameContents(fs: Fs, fs': Fs, i: nat)
    requires Shaped(fs) && Shaped(fs') && RecordsOk(fs.nodes)
  {
    forall j :: 0 <= j < 64 && j != i && Used(fs.nodes[j]) && !IsDirectory(fs.nodes[j]) ==>
      RecordOk(fs.nodes[j]) && Content(fs'.disk, fs.nodes[j]) == Content(fs.disk, fs.nodes[j])
  }

  /** The tree after record `i` is replaced and no other file's bytes change. */
  lemma ReplaceTree(fs: Fs, fs': Fs, i: nat)
    requires Inv(fs) && Inv(fs') && i < 64
    requires fs'.nodes == fs.nodes[i := fs'.nodes[i]]
    requires SameContents(fs, fs', i)
    ensures RecordOk(fs'.nodes[i])
    ensures TreeOf(fs') ==
      TreeOf(fs) - (if Used(fs.nodes[i]) then {Text(fs.nodes[i].name)} else {})
      + (if Used(fs'.nodes[i]) then map[Text(fs'.nodes[i].name) := EntryOf(fs'.disk, fs'.nodes[i])] else map[])
  {
    assert RecordOk(fs'.nodes[i]);
    hide TreeOf;
    hide SameContents;
    hide RecordOk;
    hide Text;
    forall path: CString
      ensures path in TreeOf(fs') <==> Names(fs'.nodes[i], path) || (path in TreeOf(fs) && !Names(fs.nodes[i], path))
      ensures path in TreeOf(fs') && !Names(fs'.nodes[i], path) ==>
        path in TreeOf(fs) && TreeOf(fs')[path] == TreeOf(fs)[path]
    {
      ReplacePath(fs, fs', i, path);
    }
    if Used(fs'.nodes[i]) {
      EntryAt(fs', i);
    }
  }

  lemma EntryAt(fs: Fs, i: nat)
    requires Inv(fs) && i < 64 && Used(fs.nodes[i])
    ensures RecordOk(fs.nodes[i])
    ensures Text(fs.nodes[i].name) in TreeOf(fs) && TreeOf(fs)[Text(fs.nodes[i].name)] == EntryOf(fs.disk, fs.nodes[i])
  {
    TreeAt(fs, 64, i);
  }

  lemma ReplacePath(fs: Fs, fs': Fs, i: nat, path: CString)
    requires Inv(fs) && Inv(fs') && i < 64
    requires fs'.nodes == fs.nodes[i := fs'.nodes[i]]
    requires SameContents(fs, fs', i)
    ensures path in TreeOf(fs') <==> Names(fs'.nodes[i], path) || (path in TreeOf(fs) && !Names(fs.nodes[i], path))
    ensures path in TreeOf(fs') && !Names(fs'.nodes[i], path) ==>
      path in TreeOf(fs) && TreeOf(fs')[path] == TreeOf(fs)[path]
  {
    TreeHas(fs, 64, path);
    TreeHas(fs', 64, path);
    if path in TreeOf(fs) {
      var j :| 0 <= j < 64 && Used(fs.nodes[j]) && Text(fs.nodes[j].name) == path;
      TreeAt(fs, 64, j);
      if j != i {
        assert fs'.nodes[j] == fs.nodes[j];
        TreeAt(fs', 64, j);
      }
    }
    if path in TreeOf(fs') {
      var j :| 0 <= j < 64 && Used(fs'.nodes[j]) && Text(fs'.nodes[j].name) == path;
      assert j == i || fs'.nodes[j] == fs.nodes[j];
    }
  }

  // ----- Refinement -----

  /** A file's bytes depend only on the sectors of its extent. */
  lemma SameSectorsSameContent(disk: seq<seq<byte>>, disk': seq<seq<byte>>, n: Node)
    requires |disk| == |disk'| == TOTAL_SECTORS && Used(n) && RecordOk(n) && !IsDirectory(n)
    requires forall s :: 0 <= s < TOTAL_SECTORS ==> |disk[s]| == |disk'[s]| == 512
    requires forall s: nat :: s < TOTAL_SECTORS && InExtent(n, s) ==> disk'[s] == disk[s]
    ensures Content(disk', n) == Content(disk, n)
  {
    hide Text;
    forall b: nat | b < n.size ensures Content(disk', n)[b] == Content(disk, n)[b] {
      assert InExtent(n, n.dataSector + b / 512);
    }
  }

  lemma SyncedSector(fs: Fs, s: nat)
    requires Shaped(fs) && DATA_START <= s < TOTAL_SECTORS
    ensures Synced(fs).disk[s] == fs.disk[s]
  {
  }

  /** Writing the metadata back touches no file. */
  lemma SyncedContent(fs: Fs, n: Node)
    requires Shaped(fs) && Used(n) && RecordOk(n) && !IsDirectory(n)
    ensures Content(Synced(fs).disk, n) == Content(fs.disk, n)
  {
    hide Text;
    hide NodeSector;
    forall s: nat | s < TOTAL_SECTORS && InExtent(n, s) ensures Synced(fs).disk[s] == fs.disk[s] {
      SyncedSector(fs, s);
    }
    SameSectorsSameContent(fs.disk, Synced(fs).disk, n);
  }

  lemma CreateRefines(fs: Fs, path: CString, directory: bool)
    requires Inv(fs)
    ensures Inv(Create(fs, path, directory).0)
    ensures (TreeOf(Create(fs, path, directory).0), Create(fs, path, directory).1) ==
      CreateAt(TreeOf(fs), path, directory)
  {
    hide TreeUpTo;
    CreateKeepsInv(fs, path, directory);
    FindIsLookup(fs, path);
    TreeSize(fs, 64);
    if Create(fs, path, directory).1 == 0 {
      CreatedTree(fs, path, directory);
    }
  }

  lemma CreatedTree(fs: Fs, path: CString, directory: bool)
    requires Inv(fs) && Inv(Create(fs, path, directory).0) && Create(fs, path, directory).1 == 0
    ensures TreeOf(Create(fs, path, directory).0) == TreeOf(fs)[path := if directory then Directory else File([])]
  {
    hide TreeUpTo;
    hide TreeOf;
    hide EntryOf;
    var fs', i := Create(fs, path, directory).0, FirstUnused(fs.nodes, 0);
    CreatedFacts(fs, path, directory);
    NewEntry(fs'.disk, fs.nodes[i], i, path, directory);
    assert Used(fs'.nodes[i]) && !Used(fs.nodes[i]);
    ReplaceTree(fs, fs', i);
  }

  /** A new record stands for an empty directory or file. */
  lemma NewEntry(disk: seq<seq<byte>>, n: Node, i: nat, path: CString, directory: bool)
    requires |disk| == TOTAL_SECTORS && (forall s :: 0 <= s < TOTAL_SECTORS ==> |disk[s]| == 512)
    requires WellTyped(n) && ValidPath(path) && i < 64
    ensures var r := NewNode(n, i, path, directory);
      RecordOk(r) && Used(r) && Text(r.name) == path && EntryOf(disk, r) == if directory then Directory else File([])
  {
    NewNodeOk(n, i, path, directory);
  }

  lemma CreatedFacts(fs: Fs, path: CString, directory: bool)
    requires Inv(fs) && Inv(Create(fs, path, directory).0) && Create(fs, path, directory).1 == 0
    ensures var fs', i := Create(fs, path, directory).0, FirstUnused(fs.nodes, 0);
      && i >= 0 && fs'.nodes == fs.nodes[i := NewNode(fs.nodes[i], i, path, directory)]
      && SameContents(fs, fs', i)
  {
    var i := FirstUnused(fs.nodes, 0);
    NewNodeOk(fs.nodes[i], i, path, directory);
    var changed := fs.(nodes := fs.nodes[i := NewNode(fs.nodes[i], i, path, directory)]);
    forall j | 0 <= j < 64 && j != i && Used(fs.nodes[j]) && !IsDirectory(fs.nodes[j]) ensures
      RecordOk(fs.nodes[j]) && Content(Synced(changed).disk, fs.nodes[j]) == Content(fs.disk, fs.nodes[j])
    {
      assert RecordOk(fs.nodes[j]);
      SyncedContent(changed, fs.nodes[j]);
    }
  }

  /** What was stored is what is read. */
  lemma StoredContent(fs: Fs, i: nat, sector: nat, data: seq<byte>)
    requires Shaped(fs) && i < 64 && |data| <= 1024 && sector + Blocks(|data|) <= TOTAL_SECTORS
    requires fs.nodes[i].dataSector + fs.nodes[i].dataBlocks <= TOTAL_SECTORS
    ensures var fs' := Stored(fs, i, sector, data);
      Shaped(fs') && Content(fs'.disk, fs'.nodes[i]) == data
  {
    StoredShaped(fs, i, sector, data);
    var fs' := Stored(fs, i, sector, data);
    forall b: nat | b < |data| ensures Content(fs'.disk, fs'.nodes[i])[b] == data[b] {
      var s := sector + b / 512;
      assert fs'.disk[s] == BlockOf(data, b / 512);
      assert 512 * (b / 512) + b % 512 == b;
    }
  }

  lemma StoredKeepsOthers(fs: Fs, i: nat, sector: nat, data: seq<byte>)
    requires Inv(fs) && 0 < i < 64 && Used(fs.nodes[i]) && !IsDirectory(fs.nodes[i])
    requires |data| <= 1024 && DATA_START <= sector && sector + Blocks(|data|) <= TOTAL_SECTORS
    requires fs.nodes[i].dataSector + fs.nodes[i].dataBlocks <= TOTAL_SECTORS
    requires RunFree(Released(fs, i), sector, Blocks(|data|))
    ensures Shaped(Stored(fs, i, sector, data)) && SameContents(fs, Stored(fs, i, sector, data), i)
  {
    hide IsSet;
    hide Text;
    StoredShaped(fs, i, sector, data);
    var fs' := Stored(fs, i, sector, data);
    forall j | 0 <= j < 64 && j != i && Used(fs.nodes[j]) && !IsDirectory(fs.nodes[j])
      ensures RecordOk(fs.nodes[j]) && Content(fs'.disk, fs.nodes[j]) == Content(fs.disk, fs.nodes[j])
    {
      assert RecordOk(fs.nodes[j]);
      forall s: nat | s < TOTAL_SECTORS && InExtent(fs.nodes[j], s) ensures fs'.disk[s] == fs.disk[s] {
        ReleasedBits(fs, i, s);
      }
      SameSectorsSameContent(fs.disk, fs'.disk, fs.nodes[j]);
    }
  }

  lemma WriteRefines(fs: Fs, path: CString, data: Option<seq<byte>>)
    requires Inv(fs)
    ensures Inv(Write(fs, path, data).0)
    ensures (TreeOf(Write(fs, path, data).0), Write(fs, path, data).1) == WriteAt(TreeOf(fs), path, data)
  {
    hide TreeUpTo;
    WriteKeepsInv(fs, path, data);
    FindIsLookup(fs, path);
    if Write(fs, path, data).1 != -1 {
      WrittenTree(fs, path, data.value);
    }
  }

  lemma WrittenTree(fs: Fs, path: CString, data: seq<byte>)
    requires Inv(fs) && Inv(Write(fs, path, Some(data)).0) && Write(fs, path, Some(data)).1 != -1
    ensures TreeOf(Write(fs, path, Some(data)).0) == TreeOf(fs)[path := File(data)]
  {
    hide TreeUpTo;
    hide TreeOf;
    var fs', i := Write(fs, path, Some(data)).0, Find(fs.nodes, path);
    WrittenFacts(fs, path, data);
    ReplaceTree(fs, fs', i);
  }

  lemma WrittenFacts(fs: Fs, path: CString, data: seq<byte>)
    requires Inv(fs) && Inv(Write(fs, path, Some(data)).0) && Write(fs, path, Some(data)).1 != -1
    ensures var fs', i := Write(fs, path, Some(data)).0, Find(fs.nodes, path);
      && 0 < i && fs'.nodes == fs.nodes[i := fs'.nodes[i]] && SameContents(fs, fs', i)
      && Names(fs.nodes[i], path) && Names(fs'.nodes[i], path)
      && RecordOk(fs'.nodes[i]) && EntryOf(fs'.disk, fs'.nodes[i]) == File(data)
  {
    hide Text;
    hide Released;
    var fs', i := Write(fs, path, Some(data)).0, Find(fs.nodes, path);
    assert RecordOk(fs.nodes[i]);
    var sector := FirstFit(Released(fs, i), Blocks(|data|), DATA_START).value;
    var stored := Stored(fs, i, sector, data);
    StoredShaped(fs, i, sector, data);
    StoredContent(fs, i, sector, data);
    StoredKeepsOthers(fs, i, sector, data);
    assert RecordOk(fs'.nodes[i]);
    SyncedContent(stored, stored.nodes[i]);
    SyncedOthers(fs, stored, i);
  }

  lemma SyncedOthers(fs: Fs, stored: Fs, i: nat)
    requires Shaped(fs) && Shaped(stored) && RecordsOk(fs.nodes) && SameContents(fs, stored, i)
    ensures SameContents(fs, Synced(stored), i)
  {
    forall j | 0 <= j < 64 && j != i && Used(fs.nodes[j]) && !IsDirectory(fs.nodes[j])
      ensures RecordOk(fs.nodes[j]) && Content(Synced(stored).disk, fs.nodes[j]) == Content(fs.disk, fs.nodes[j])
    {
      assert RecordOk(fs.nodes[j]);
      SyncedContent(stored, fs.nodes[j]);
    }
  }

  lemma RemoveRefines(fs: Fs, path: CString)
    requires Inv(fs)
    ensures Inv(Remove(fs, path).0)
    ensures (TreeOf(Remove(fs, path).0), Remove(fs, path).1) == RemoveAt(TreeOf(fs), path)
  {
    hide TreeUpTo;
    RemoveKeepsInv(fs, path);
    FindIsLookup(fs, path);
    FindRoot(fs, path);
    if Remove(fs, path).1 {
      var i := Find(fs.nodes, path);
      assert RecordOk(fs.nodes[i]);
      SyncedOthers(fs, fs.(nodes := Remove(fs, path).0.nodes, bitmap := Released(fs, i)), i);
      ReplaceTree(fs, Remove(fs, path).0, i);
      assert !Used(Remove(fs, path).0.nodes[i]) && Names(fs.nodes[i], path);
      assert TreeOf(fs) - {path} + map[] == TreeOf(fs) - {path};
    }
  }

  lemma ReadRefines(fs: Fs, path: CString, hasBuffer: bool, capacity: nat)
    requires Inv(fs)
    ensures Read(fs, path, hasBuffer, capacity) == ReadAt(TreeOf(fs), path, hasBuffer, capacity)
  {
    FindIsLookup(fs, path);
  }
}
