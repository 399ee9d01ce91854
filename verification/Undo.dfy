/** Deleting what was just written gives back the volume: the cluster map cell for cell,
    the names, and every cluster that was in use except the parent's dead slot. */
module Undo {
  import opened Layout
  import opened Volume
  import opened Heap
  import opened Tree
  import opened Consistency
  import opened Names
  import opened Runs
  import opened Exact
  import opened Reached
  import opened WriteOrder

  lemma FileShapeUndone(v: Volume, s: Shape, cells: seq<nat>, slot: Slot)
    requires Inv(v, s) && FreeCellsOf(v.fat, cells) && 0 < |cells|
    ensures var z := FileShape(s, AddedOwners(s.owner, cells), cells[0], cells, slot);
            DroppedShape(z, DroppedOwners(z.owner, cells), cells[0]) == s
  {
    hide TableOf, TreeInv, HeaderOk, IsChain;
    FreeNotOwned(v.fat, s.chains, s.owner, cells);
    FreeCellsApart(v, s, cells);
    NotHome(v, s, cells[0]);
    assert cells[0] in cells;
    assert DroppedOwners(AddedOwners(s.owner, cells), cells) == s.owner;
    assert s.chains[cells[0] := cells] - {cells[0]} == s.chains;
    assert s.home[cells[0] := slot] - {cells[0]} == s.home;
    assert s.depth - {cells[0]} == s.depth;
  }

  lemma FolderShapeUndone(v: Volume, s: Shape, c: nat, slot: Slot)
    requires Inv(v, s) && FreeCellsOf(v.fat, [c]) && slot.0 in s.depth
    ensures var z := FolderShape(s, AddedOwners(s.owner, [c]), c, slot);
            DroppedShape(z, DroppedOwners(z.owner, [c]), c) == s
  {
    hide TableOf, TreeInv, HeaderOk, IsChain;
    FreeNotOwned(v.fat, s.chains, s.owner, [c]);
    FreeCellsApart(v, s, [c]);
    NotHome(v, s, c);
    assert c in [c];
    assert DroppedOwners(AddedOwners(s.owner, [c]), [c]) == s.owner;
    assert s.chains[c := [c]] - {c} == s.chains;
    assert s.home[c := slot] - {c} == s.home;
    assert s.depth[c := s.depth[slot.0] + 1] - {c} == s.depth;
  }

  lemma NotHome(v: Volume, s: Shape, c: nat)
    requires Inv(v, s) && c !in s.chains
    ensures c !in s.home
  {
    hide TreeInv, HeapInv, HeaderOk, TableOf;
    if c in s.home { HomeChain(v, s, c); }
  }

  lemma FatClusterBack(v: Volume, s: Shape, u: Volume)
    requires Inv(v, s) && u.Shaped() && u.fat == v.fat && u.raw[FAT_CLUSTER_NUMBER] == CellBytes(u.fat)
    ensures u.raw[FAT_CLUSTER_NUMBER] == v.raw[FAT_CLUSTER_NUMBER]
  {
    hide TreeInv, HeapInv, TableOf, CellsOf, CellBytes, Signature;
  }

  /** `u` is `v` again: same map, same names under the same shape, same FAT cluster, and
      all other clusters but the parent's and those that were free. */
  ghost predicate Restored(v: Volume, s: Shape, u: Volume, z: Shape, d: nat)
    requires v.Shaped() && d < CLUSTER_MAP_SIZE
  {
    && z == s && Inv(u, s) && Abs(u, s) == Abs(v, s) && u.fat == v.fat
    && u.raw[FAT_CLUSTER_NUMBER] == v.raw[FAT_CLUSTER_NUMBER]
    && (forall c :: 2 <= c < CLUSTER_MAP_SIZE && v.fat[c] != EMPTY_ENTRY && c != d ==> u.raw[c] == v.raw[c])
    && |u.Dir(d)| == |v.Dir(d)|
    && forall i :: 0 <= i < |v.Dir(d)| ==>
         if Live(v.Dir(d)[i]) then u.Dir(d)[i] == v.Dir(d)[i]
         else i == FirstDead(v.Dir(d)) || u.Dir(d)[i] == v.Dir(d)[i]
  }

  /** `delete` undoes `write` of a file, whatever the file's extension: the extension of the
      deletion only picks the branch. */
  lemma DeleteUndoesFileWrite(v: Volume, s: Shape, q: Request, buf: seq<byte>, r: Request)
    requires Inv(v, s) && WriteReady(v, q, |buf|) && q.bufferSize > 0
    requires FreshName(v, s, q.parent, q.name) && FirstDead(v.Dir(q.parent)) < TABLE_SIZE
    requires r.parent == q.parent && r.name == q.name && r.ext != NO_EXT
    ensures v.fat[q.parent] != EMPTY_ENTRY && Clusters(q.bufferSize) <= |Free(v.fat)|
    ensures FileWritten(v, q, buf).code == 0
    ensures var w := FileWritten(v, q, buf).vol;
            && w.Shaped() && DeleteReady(w, r) && Deleted(w, r).code == 0
            && var j := FirstDead(v.Dir(q.parent));
               j < |w.Dir(q.parent)|
               && Restored(v, s, Deleted(w, r).vol, ShapeAfterDelete(w, ShapeAfterFile(v, s, q), q.parent, j), q.parent)
  {
    hide TableOf, TableBytes, CellBytes, TreeInv, HeapInv, HeaderOk, FileWritten, FileDeleted, FirstDead, FirstNamed,
      Picked, ShapeAfterFile, ShapeAfterDelete, ClusterNo, Walkable, Clusters, Abs, ZERO_ENTRY;
    DirAt(v, s, q.parent);
    DeleteFindsFile(v, s, q, buf, r);
    FileNamesBack(v, s, q, buf);
    FileBytesBack(v, s, q, buf);
    FatClusterBack(v, s, FileDeleted(FileWritten(v, q, buf).vol, q.parent, FirstDead(v.Dir(q.parent))));
  }

  /** The deletion's search stops at the entry just written. */
  lemma DeleteFindsFile(v: Volume, s: Shape, q: Request, buf: seq<byte>, r: Request)
    requires Inv(v, s) && WriteReady(v, q, |buf|) && q.bufferSize > 0
    requires FreshName(v, s, q.parent, q.name) && FirstDead(v.Dir(q.parent)) < TABLE_SIZE
    requires r.parent == q.parent && r.name == q.name && r.ext != NO_EXT
    ensures v.fat[q.parent] != EMPTY_ENTRY && Clusters(q.bufferSize) <= |Free(v.fat)|
    ensures FileWritten(v, q, buf).code == 0
    ensures var w, j := FileWritten(v, q, buf).vol, FirstDead(v.Dir(q.parent));
            && w.Shaped() && DeleteReady(w, r) && j < |w.Dir(q.parent)| == TABLE_SIZE
            && Walkable(w.fat, ClusterNo(w.Dir(q.parent)[j]))
            && Deleted(w, r) == Outcome(FileDeleted(w, q.parent, j), 0)
  {
    hide TableOf, TreeInv, HeapInv, HeaderOk, FileWritten, FileDeleted, FirstDead, FirstNamed, Picked, FreeCellsOf,
      Link, AddedOwners, ClusterNo, FileEntry, Walkable, Chain, Clusters, IsChain, Owned, NamesOk;
    FileMadeAt(v, s, q, buf);
    LiveEntryAt(FileWritten(v, q, buf).vol, ShapeAfterFile(v, s, q), q.parent, FirstDead(v.Dir(q.parent)));
  }

  /** Names and order after both. */
  lemma FileNamesBack(v: Volume, s: Shape, q: Request, buf: seq<byte>)
    requires v.Shaped() && WriteReady(v, q, |buf|) && q.bufferSize > 0
    requires FreshName(v, s, q.parent, q.name) && FirstDead(v.Dir(q.parent)) < TABLE_SIZE && Inv(v, s)
    ensures v.fat[q.parent] != EMPTY_ENTRY && Clusters(q.bufferSize) <= |Free(v.fat)|
    ensures var w, j := FileWritten(v, q, buf).vol, FirstDead(v.Dir(q.parent));
            && w.Shaped() && j < |w.Dir(q.parent)| == TABLE_SIZE && Walkable(w.fat, ClusterNo(w.Dir(q.parent)[j]))
            && var u, z := FileDeleted(w, q.parent, j), ShapeAfterDelete(w, ShapeAfterFile(v, s, q), q.parent, j);
               Inv(u, z) && Abs(u, z) == Abs(v, s)
  {
    hide TableOf, TreeInv, HeapInv, HeaderOk, Abs, FileWritten, FileDeleted, FirstDead, FirstNamed, Picked,
      FreeCellsOf, Link, ShapeAfterFile, ShapeAfterDelete, ClusterNo, FileEntry, Walkable, Chain, Clusters, NamesOk;
    FileMadeAt(v, s, q, buf);
    var w, z, j := FileWritten(v, q, buf).vol, ShapeAfterFile(v, s, q), FirstDead(v.Dir(q.parent));
    FileDeleteKeepsInv(w, z, q.parent, j);
    FileWriteAdds(v, s, q, buf);
    FileDeleteRemoves(w, z, q.parent, j);
    AddThenRemove(Abs(v, s), q.parent, q.name, File(q.ext, buf[..q.bufferSize]));
  }

  ghost predicate BytesBack(v: Volume, s: Shape, u: Volume, z: Shape, d: nat, j: nat) {
    z == s && v.Shaped() && d < CLUSTER_MAP_SIZE && j < TABLE_SIZE && u.fat == v.fat && ClustersBack(v, u, d, j)
  }

  /** Shape, map and clusters after both. */
  lemma FileBytesBack(v: Volume, s: Shape, q: Request, buf: seq<byte>)
    requires v.Shaped() && WriteReady(v, q, |buf|) && q.bufferSize > 0
    requires FreshName(v, s, q.parent, q.name) && FirstDead(v.Dir(q.parent)) < TABLE_SIZE && Inv(v, s)
    ensures v.fat[q.parent] != EMPTY_ENTRY && Clusters(q.bufferSize) <= |Free(v.fat)|
    ensures var w, j := FileWritten(v, q, buf).vol, FirstDead(v.Dir(q.parent));
            && w.Shaped() && j < |w.Dir(q.parent)| == TABLE_SIZE && Walkable(w.fat, ClusterNo(w.Dir(q.parent)[j]))
            && BytesBack(v, s, FileDeleted(w, q.parent, j), ShapeAfterDelete(w, ShapeAfterFile(v, s, q), q.parent, j),
                         q.parent, j)
  {
    hide TableOf, TableBytes, CellBytes, TreeInv, HeapInv, HeaderOk, FileWritten, FileDeleted, FirstDead, FirstNamed,
      Picked, FreeCellsOf, Link, Release, AddedOwners, DroppedOwners, ClusterNo, FileEntry, Walkable, Chain, Clusters,
      IsChain, Owned, Padded, Chunk, NamesOk, SizedClusters, Zeros, ClustersBack;
    FileMadeAt(v, s, q, buf);
    DirAt(v, s, q.parent);
    var w, z, j, cells := FileWritten(v, q, buf).vol, ShapeAfterFile(v, s, q), FirstDead(v.Dir(q.parent)),
        Picked(v, q.bufferSize);
    LiveEntryAt(w, z, q.parent, j);
    FileShapeUndone(v, s, cells, (q.parent, j));
    ReleaseUndoesLink(v.fat, cells);
    FileWrittenRaw(v, q, buf);
    FileClustersBack(v, s, w, z, q.parent, j, w.Dir(q.parent)[j], cells, FileDeleted(w, q.parent, j));
  }

  lemma AddThenRemove(fs: FileSystem, d: nat, n: seq<byte>, node: Node)
    requires d in fs && n !in fs[d]
    ensures var with := fs[d := fs[d][n := node]];
            with[d := with[d] - {n}] == fs
  {
    assert fs[d][n := node] - {n} == fs[d];
  }

  /** The file just written, as its deletion finds it. */
  lemma FileMadeAt(v: Volume, s: Shape, q: Request, buf: seq<byte>)
    requires Inv(v, s) && WriteReady(v, q, |buf|) && q.bufferSize > 0
    requires FreshName(v, s, q.parent, q.name) && FirstDead(v.Dir(q.parent)) < TABLE_SIZE
    ensures 2 <= q.parent && v.fat[q.parent] != EMPTY_ENTRY && Clusters(q.bufferSize) <= |Free(v.fat)|
    ensures FileWritten(v, q, buf).code == 0 && FreeCellsOf(v.fat, Picked(v, q.bufferSize))
    ensures var w, z := FileWritten(v, q, buf).vol, ShapeAfterFile(v, s, q);
            var j, cells := FirstDead(v.Dir(q.parent)), Picked(v, q.bufferSize);
            && Inv(w, z) && w.Shaped() && q.parent in z.depth && 1 <= j < |w.Dir(q.parent)| == TABLE_SIZE
            && w.fat == Link(v.fat, cells)
            && w.Dir(q.parent) == v.Dir(q.parent)[j := FileEntry(q.name, q.ext, cells[0], q.bufferSize)]
            && ClusterNo(w.Dir(q.parent)[j]) == cells[0] && z.chains[cells[0]] == cells
            && Live(w.Dir(q.parent)[j]) && w.Dir(q.parent)[j].filesize == q.bufferSize
            && w.Dir(q.parent)[j].name == q.name
  {
    hide TableOf, TableBytes, CellBytes, TreeInv, HeapInv, HeaderOk, FileWritten, FirstDead, Picked, FreeCellsOf, Link,
      AddedOwners, Clusters, Padded, Chunk, SizedClusters;
    DirAt(v, s, q.parent);
    SelfCluster(v, s, q.parent);
    FileWriteKeepsInv(v, s, q, buf);
    FileWrittenRaw(v, q, buf);
    var j, cells := FirstDead(v.Dir(q.parent)), Picked(v, q.bufferSize);
    TableRoundTrip(v.Dir(q.parent)[j := FileEntry(q.name, q.ext, cells[0], q.bufferSize)]);
    ClusterSplit(cells[0]);
  }

  /** `u` has the clusters of `v` again, but for the slot, the cells that were free and
      the cached map, which is written through. */
  ghost predicate ClustersBack(v: Volume, u: Volume, d: nat, j: nat)
    requires v.Shaped() && d < CLUSTER_MAP_SIZE && j < TABLE_SIZE
  {
    && u.Shaped()
    && u.raw[FAT_CLUSTER_NUMBER] == CellBytes(u.fat)
    && u.Dir(d) == v.Dir(d)[j := ZERO_ENTRY]
    && forall c :: 2 <= c < CLUSTER_MAP_SIZE && v.fat[c] != EMPTY_ENTRY && c != d ==> u.raw[c] == v.raw[c]
  }

  lemma FileClustersBack(v: Volume, s: Shape, w: Volume, z: Shape, d: nat, j: nat, e: Entry, cells: seq<nat>, u: Volume)
    requires v.Shaped() && w.Shaped() && d < CLUSTER_MAP_SIZE && 1 <= j < TABLE_SIZE
    requires d in s.depth && d in z.depth && ClusterNo(e) in z.chains && z.chains[ClusterNo(e)] == cells
    requires w.Dir(d) == v.Dir(d)[..j] + [e] + v.Dir(d)[j + 1..] && Live(e) && e.filesize > 0
    requires forall c :: 2 <= c < CLUSTER_MAP_SIZE && c !in cells && c != d ==> w.raw[c] == v.raw[c]
    requires FreeCellsOf(v.fat, cells) && Walkable(w.fat, ClusterNo(e)) && w.Dir(d)[j] == e && u == FileDeleted(w, d, j)
    requires Inv(v, s) && Inv(w, z)
    ensures u.fat == Release(w.fat, cells) && ClustersBack(v, u, d, j)
  {
    hide TableOf, TableBytes, CellBytes, TreeInv, HeapInv, HeaderOk, FileDeleted, FirstNamed, Release, ClusterNo,
      Walkable, Chain, Clusters, SizedClusters, Zeros, ZERO_ENTRY, IsChain, Owned, FreeCellsOf;
    DirAt(v, s, d);
    LiveEntryAt(w, z, d, j);
    ChainApart(w, z, ClusterNo(e));
    FreeCellsApart(v, s, cells);
    FileDeletedRaw(w, d, j, cells);
    TableRoundTrip(w.Dir(d)[j := ZERO_ENTRY]);
    UsedNotFree(v.fat, cells);
    assert w.Dir(d)[j := ZERO_ENTRY] == v.Dir(d)[j := ZERO_ENTRY];
  }

  lemma UsedNotFree(fat: seq<uint32>, cells: seq<nat>)
    requires FreeCellsOf(fat, cells)
    ensures forall c :: 0 <= c < |fat| && fat[c] != EMPTY_ENTRY ==> c !in cells
  {
  }

  /** `delete` undoes `write` of a folder, whatever extension the writing was given. */
  lemma DeleteUndoesFolderWrite(v: Volume, s: Shape, q: Request, stack: Entry, selfStack: Entry, r: Request)
    requires Inv(v, s) && WriteReady(v, q, 0) && q.bufferSize == 0
    requires FreshName(v, s, q.parent, q.name) && FirstDead(v.Dir(q.parent)) < TABLE_SIZE
    requires r.parent == q.parent && r.name == q.name && r.ext == NO_EXT
    ensures v.fat[q.parent] != EMPTY_ENTRY && 1 <= |Free(v.fat)| && FolderWritten(v, q, stack, selfStack).code == 0
    ensures var w := FolderWritten(v, q, stack, selfStack).vol;
            && w.Shaped() && DeleteReady(w, r) && Deleted(w, r).code == 0
            && var j := FirstDead(v.Dir(q.parent));
               j < |w.Dir(q.parent)|
               && Restored(v, s, Deleted(w, r).vol, ShapeAfterDelete(w, ShapeAfterFolder(v, s, q.parent), q.parent, j),
                           q.parent)
  {
    hide TableOf, TableBytes, CellBytes, TreeInv, HeapInv, HeaderOk, Abs, FolderWritten, FolderDeleted, FirstDead,
      FirstNamed, AddedOwners, DroppedOwners, ClusterNo, FolderEntry, Walkable, Chain, Clusters, HasEntries,
      FreeCellsOf, IsChain, Owned, NamesOk, SizedClusters, NewTable;
    FolderMade(v, s, q, stack, selfStack);
    FolderWriteAnswers(v, s, q, stack, selfStack);
    DirAt(v, s, q.parent);
    FirstFree(v);
    var w, z, j, c := FolderWritten(v, q, stack, selfStack).vol, ShapeAfterFolder(v, s, q.parent),
        FirstDead(v.Dir(q.parent)), Free(v.fat)[0];
    LiveEntryAt(w, z, q.parent, j);
    FolderDeleteKeepsInv(w, z, q.parent, j);
    FolderWriteAdds(v, s, q, stack, selfStack);
    FolderDeleteRemoves(w, z, q.parent, j);
    FolderShapeUndone(v, s, c, (q.parent, j));
    FolderClustersBack(v, s, q, stack, selfStack, w, j, FolderDeleted(w, q.parent, j));
    FatClusterBack(v, s, FolderDeleted(w, q.parent, j));
    AddThenRemoveFolder(Abs(v, s), q.parent, q.name, c);
  }

  lemma AddThenRemoveFolder(fs: FileSystem, d: nat, n: seq<byte>, c: nat)
    requires d in fs && n !in fs[d] && c !in fs
    ensures var with := fs[d := fs[d][n := Folder(c)]][c := map[n := Folder(d)]];
            (with - {c})[d := with[d] - {n}] == fs
  {
    assert fs[d][n := Folder(c)] - {n} == fs[d];
  }

  lemma FolderClustersBack(v: Volume, s: Shape, q: Request, stack: Entry, selfStack: Entry, w: Volume,
                           j: nat, u: Volume)
    requires v.Shaped() && w.Shaped() && q.parent < CLUSTER_MAP_SIZE && j < TABLE_SIZE
    requires ClusterNo(w.Dir(q.parent)[j]) < CLUSTER_MAP_SIZE && u == FolderDeleted(w, q.parent, j)
    requires WriteReady(v, q, 0) && q.bufferSize == 0 && w == FolderWritten(v, q, stack, selfStack).vol
    requires FreshName(v, s, q.parent, q.name) && j == FirstDead(v.Dir(q.parent))
    requires Inv(v, s)
    ensures u.Shaped() && u.fat == v.fat && u.raw[FAT_CLUSTER_NUMBER] == CellBytes(u.fat)
    ensures u.Dir(q.parent) == v.Dir(q.parent)[j := w.Dir(q.parent)[j].(userAttribute := 0)]
    ensures forall c :: 2 <= c < CLUSTER_MAP_SIZE && v.fat[c] != EMPTY_ENTRY && c != q.parent ==> u.raw[c] == v.raw[c]
  {
    hide TableOf, TableBytes, CellBytes, TreeInv, HeapInv, HeaderOk, FirstDead, NewTable, ShapeAfterFolder, Clusters,
      ClusterNo, FolderEntry, SizedClusters, HasEntries;
    DirAt(v, s, q.parent);
    FolderMade(v, s, q, stack, selfStack);
    FirstFree(v);
    FolderWrittenRaw(v, q, stack, selfStack);
    FolderDeletedShaped(w, q.parent, j);
    TableRoundTrip(w.Dir(q.parent)[j := w.Dir(q.parent)[j].(userAttribute := 0)]);
    assert v.fat[Free(v.fat)[0] := END_OF_FILE][Free(v.fat)[0] := EMPTY_ENTRY] == v.fat;
  }
}
