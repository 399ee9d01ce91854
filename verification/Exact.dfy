/** Where the driver falls short of the plain model, and exactly when. */
module Exact {
  import opened Layout
  import opened Volume
  import opened Heap
  import opened Tree
  import opened Consistency
  import opened Names
  import opened Runs

  /** A search finds a live entry whenever there is one. For a name not in use,
      `read_directory` with a buffer of one cluster answers "not found" exactly when no dead
      entry kept the name. The empty name is kept by every blank entry. */
  lemma FolderLookupRightIff(v: Volume, s: Shape, q: Request)
    requires Inv(v, s) && q.parent in s.depth && q.bufferSize == CLUSTER_SIZE
    requires q.parent in Abs(v, s) && q.name !in Abs(v, s)[q.parent] && ReadDirectoryReady(v, q)
    ensures q.parent < CLUSTER_MAP_SIZE
    ensures FolderRead(v, q).code == 2 <==> NotStale(v, q.parent, q.name)
  {
    hide TableOf, TreeInv, HeapInv, HeaderOk, Abs, Listing, NamesOk, Walkable, Chain;
    AbsAt(v, s, q.parent);
    var t, i := v.Dir(q.parent), FirstNamed(v.Dir(q.parent), q.name);
  }

  /** So does `read`, whatever the size of its buffer; it refuses the empty name. */
  lemma FileLookupRightIff(v: Volume, s: Shape, q: Request)
    requires Inv(v, s) && q.parent in s.depth && q.name != NO_NAME
    requires q.parent in Abs(v, s) && q.name !in Abs(v, s)[q.parent] && ReadReady(v, q)
    ensures q.parent < CLUSTER_MAP_SIZE
    ensures FileRead(v, q).code == 3 <==> NotStale(v, q.parent, q.name)
  {
    hide TableOf, TreeInv, HeapInv, HeaderOk, Abs, Listing, NamesOk, Walkable, Chain;
    AbsAt(v, s, q.parent);
    var t, i := v.Dir(q.parent), FirstNamed(v.Dir(q.parent), q.name);
  }

  /** Every folder made and deleted again leaves such a name: afterwards the plain model
      has lost it, yet `read_directory` still answers 0 for it. */
  lemma DeletedFolderStillFound(v: Volume, s: Shape, q: Request, stack: Entry, selfStack: Entry, r: Request)
    requires Inv(v, s) && WriteReady(v, q, 0) && q.bufferSize == 0
    requires FreshName(v, s, q.parent, q.name) && FirstDead(v.Dir(q.parent)) < TABLE_SIZE
    requires r == q.(bufferSize := CLUSTER_SIZE)
    ensures v.fat[q.parent] != EMPTY_ENTRY && 1 <= |Free(v.fat)|
    ensures var w, j := FolderWritten(v, q, stack, selfStack).vol, FirstDead(v.Dir(q.parent));
            && w.Shaped() && j < |w.Dir(q.parent)| && ClusterNo(w.Dir(q.parent)[j]) < CLUSTER_MAP_SIZE
            && var u := FolderDeleted(w, q.parent, j);
               var z := ShapeAfterDelete(w, ShapeAfterFolder(v, s, q.parent), q.parent, j);
               && Inv(u, z) && q.parent in Abs(u, z) && q.name !in Abs(u, z)[q.parent]
               && ReadDirectoryReady(u, r) && FolderRead(u, r).code == 0
  {
    hide TableOf, TableBytes, TreeInv, HeapInv, HeaderOk, Abs, NamesOk, FolderWritten, FolderDeleted, HasEntries,
      ShapeAfterFolder, ShapeAfterDelete, FirstDead, ClusterNo, FolderEntry;
    FolderMade(v, s, q, stack, selfStack);
    var w, z, j := FolderWritten(v, q, stack, selfStack).vol, ShapeAfterFolder(v, s, q.parent),
        FirstDead(v.Dir(q.parent));
    var e := w.Dir(q.parent)[j];
    FolderDeleteKeepsInv(w, z, q.parent, j);
    FolderDeleteRemoves(w, z, q.parent, j);
    DroppedDir(w, q.parent, j);
    FirstOfName(v.Dir(q.parent), q.name, j, e.(userAttribute := 0));
    assert FolderDeleted(w, q.parent, j).Dir(q.parent) == v.Dir(q.parent)[j := e.(userAttribute := 0)];
    DeadKeepsCluster(e);
  }

  lemma DeadKeepsCluster(e: Entry)
    ensures ClusterNo(e.(userAttribute := 0)) == ClusterNo(e)
  {
  }

  /** The folder just made, as its deletion finds it. */
  lemma FolderMade(v: Volume, s: Shape, q: Request, stack: Entry, selfStack: Entry)
    requires Inv(v, s) && WriteReady(v, q, 0) && q.bufferSize == 0
    requires FreshName(v, s, q.parent, q.name) && FirstDead(v.Dir(q.parent)) < TABLE_SIZE
    ensures v.fat[q.parent] != EMPTY_ENTRY && 1 <= |Free(v.fat)| && 2 <= q.parent
    ensures var w, z := FolderWritten(v, q, stack, selfStack).vol, ShapeAfterFolder(v, s, q.parent);
            var j := FirstDead(v.Dir(q.parent));
            && Inv(w, z) && q.parent in z.depth && 1 <= j < |w.Dir(q.parent)| == TABLE_SIZE
            && Free(v.fat)[0] < CLUSTER_MAP_SIZE
            && w.Dir(q.parent) == v.Dir(q.parent)[j := FolderEntry(stack, q.name, Free(v.fat)[0])]
            && var e := w.Dir(q.parent)[j];
               && Live(e) && e.filesize == 0 && e.name == q.name
               && ClusterNo(e) == Free(v.fat)[0] < CLUSTER_MAP_SIZE && !HasEntries(w.Dir(ClusterNo(e)))
  {
    hide TableOf, TableBytes, TreeInv, HeapInv, HeaderOk, FolderWritten, FirstDead, NewTable, ShapeAfterFolder,
      Clusters;
    DirAt(v, s, q.parent);
    SelfCluster(v, s, q.parent);
    FolderWriteKeepsInv(v, s, q, stack, selfStack);
    FolderWrittenRaw(v, q, stack, selfStack);
    ClusterSplit(Free(v.fat)[0]);
    NewTableIsFresh(selfStack, q.name, q.parent);
    FolderShapeKeys(v, s, q.parent);
  }

  lemma FolderShapeKeys(v: Volume, s: Shape, d: nat)
    requires |v.fat| == |v.raw| == CLUSTER_MAP_SIZE && d < CLUSTER_MAP_SIZE && 1 <= |Free(v.fat)| && d in s.depth
    ensures ShapeAfterFolder(v, s, d).depth.Keys == s.depth.Keys + {Free(v.fat)[0]}
    ensures d in ShapeAfterFolder(v, s, d).depth
  {
  }

  lemma DroppedDir(w: Volume, d: nat, j: nat)
    requires w.Shaped() && d < CLUSTER_MAP_SIZE && d != FAT_CLUSTER_NUMBER && j < TABLE_SIZE
    requires ClusterNo(w.Dir(d)[j]) < CLUSTER_MAP_SIZE
    ensures FolderDeleted(w, d, j).Shaped()
    ensures FolderDeleted(w, d, j).Dir(d) == w.Dir(d)[j := w.Dir(d)[j].(userAttribute := 0)]
  {
    hide TableOf, TableBytes, CellBytes, ClusterNo;
    FolderDeletedShaped(w, d, j);
    TableRoundTrip(w.Dir(d)[j := w.Dir(d)[j].(userAttribute := 0)]);
  }

  /** The slots before the first dead one are live, so they do not bear a new name. */
  lemma FirstOfName(t: Table, name: Name, j: nat, e: Entry)
    requires j == FirstDead(t) < |t| && e.name == name
    requires forall i :: 0 <= i < |t| && Live(t[i]) ==> t[i].name != name
    ensures FirstNamed(t[j := e], name) == j
  {
    var k := FirstNamed(t[j := e], name);
    assert t[j := e][j].name == name;
  }

  // -- Buffers too small --

  /** `read` hands over no more bytes than the buffer size exactly when that is all whole
      clusters of the file. It says "not enough buffer" for just the buffers smaller than
      the file, except for those from a quarter of its clusters but the last upwards. */
  lemma ReadFitsIff(data: seq<byte>, bufferSize: nat, r: Reply)
    requires data != [] && FileAnswer(data, bufferSize, r)
    ensures |r.data| <= bufferSize <==> CLUSTER_SIZE * Clusters(|data|) <= bufferSize
    ensures (r.code == 2 <==> bufferSize < |data|)
            <==> |data| <= bufferSize || bufferSize < CLUSTER_MAP_SIZE * (Clusters(|data|) - 1)
  {
    var room := bufferSize / CLUSTER_MAP_SIZE + 1;
    assert bufferSize < CLUSTER_MAP_SIZE * room;
  }

  /** A file of two clusters is read into a buffer of 512 bytes without complaint. */
  lemma SmallBufferAccepted(data: seq<byte>, r: Reply)
    requires |data| == 2 * CLUSTER_SIZE && FileAnswer(data, CLUSTER_MAP_SIZE, r)
    ensures r == Reply(0, data)
  {
    assert r.data[..|data|] == r.data;
  }
}
