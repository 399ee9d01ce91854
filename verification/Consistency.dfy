/** The whole volume in order: FAT heap, directory tree, FAT cached as it is on disk, boot
    signature. Every driver operation keeps it, given what its caller owes. */
module Consistency {
  import opened Layout
  import opened Volume
  import opened Heap
  import opened Tree

  ghost function TablesOf(raw: seq<seq<byte>>, dirs: set<nat>): Tables {
    map d | d in dirs && d < |raw| :: TableOf(raw[d])
  }

  /** Reserved cells, the cached FAT as on disk, the boot signature. */
  ghost predicate HeaderOk(v: Volume)
    requires v.Shaped()
  {
    && v.fat[0] == CLUSTER_0_VALUE && v.fat[1] == CLUSTER_1_VALUE && v.fat[ROOT_CLUSTER_NUMBER] == END_OF_FILE
    && v.raw[FAT_CLUSTER_NUMBER] == CellBytes(v.fat)
    && v.raw[0][..BLOCK_SIZE] == Signature()
  }

  ghost predicate Inv(v: Volume, s: Shape) {
    && v.Shaped()
    && HeaderOk(v)
    && HeapInv(v.fat, s.chains, s.owner)
    && TreeInv(TablesOf(v.raw, s.depth.Keys), s)
  }

  /** A live directory is a cluster of its own, and its table is read from there. */
  lemma DirAt(v: Volume, s: Shape, d: nat)
    requires Inv(v, s) && d in s.depth
    ensures 2 <= d < CLUSTER_MAP_SIZE && v.fat[d] == END_OF_FILE && d in s.chains && s.chains[d] == [d]
    ensures |v.Dir(d)| == TABLE_SIZE
    ensures d in TablesOf(v.raw, s.depth.Keys) && TablesOf(v.raw, s.depth.Keys)[d] == v.Dir(d)
  {
    hide TreeInv;
    DepthKeys(TablesOf(v.raw, s.depth.Keys), s);
    At(TablesOf(v.raw, s.depth.Keys), s, d);
    ChainAt(v.fat, s.chains, s.owner, d);
    assert LinkOk(v.fat, s.chains[d], 0);
  }

  lemma DepthKeys(ts: Tables, s: Shape)
    requires TreeInv(ts, s)
    ensures s.depth.Keys == ts.Keys && ROOT_CLUSTER_NUMBER in ts
  {
  }

  // -- Raw disk changes --

  lemma {:induction false} StoreAt(raw: seq<seq<byte>>, cells: seq<nat>, data: seq<byte>)
    requires forall k :: 0 <= k < |cells| ==> cells[k] < |raw|
    requires CLUSTER_SIZE * |cells| <= |data| && SizedClusters(raw) && Ascending(cells)
    ensures forall k :: 0 <= k < |cells| ==> Store(raw, cells, data)[cells[k]] == Chunk(data, k)
    ensures forall c :: 0 <= c < |raw| && c !in cells ==> Store(raw, cells, data)[c] == raw[c]
  {
    var n := |cells|;
    if n > 0 {
      var prior := cells[..n - 1];
      StoreAt(raw, prior, data);
      var stored := Store(raw, prior, data);
      assert Store(raw, cells, data) == stored[cells[n - 1] := Chunk(data, n - 1)];
      forall k | 0 <= k < n ensures stored[cells[n - 1] := Chunk(data, n - 1)][cells[k]] == Chunk(data, k) {
        if k < n - 1 {
          assert prior[k] == cells[k] < cells[n - 1];
        }
      }
      assert cells[n - 1] in cells;
    }
  }

  lemma TablesUpdated(raw: seq<seq<byte>>, raw': seq<seq<byte>>, dirs: set<nat>, d: nat, t: Table)
    requires |raw| == |raw'| && d in dirs && d < |raw| && raw'[d] == TableBytes(t)
    requires forall x :: x in dirs && x < |raw| && x != d ==> raw'[x] == raw[x]
    ensures TablesOf(raw', dirs) == TablesOf(raw, dirs)[d := t]
  {
    TableRoundTrip(t);
  }

  // -- Writing a file --

  /** What `write` of a file owes: the name is new in a live directory that has a slot. */
  ghost predicate FreshName(v: Volume, s: Shape, d: nat, name: Name) {
    && d in s.depth && d < |v.raw|
    && name != NO_NAME
    && forall i :: 0 <= i < |v.Dir(d)| && Live(v.Dir(d)[i]) ==> v.Dir(d)[i].name != name
  }

  ghost function ShapeAfterFile(v: Volume, s: Shape, q: Request): Shape
    requires |v.fat| == |v.raw| == CLUSTER_MAP_SIZE && q.bufferSize > 0 && q.parent < CLUSTER_MAP_SIZE
    requires Clusters(q.bufferSize) <= |Free(v.fat)|
  {
    var cells := Picked(v, q.bufferSize);
    FileShape(s, AddedOwners(s.owner, cells), cells[0], cells, (q.parent, FirstDead(v.Dir(q.parent))))
  }

  /** Where a file write leaves each cluster. */
  lemma FileWrittenRaw(v: Volume, q: Request, buf: seq<byte>)
    requires v.Shaped() && WriteReady(v, q, |buf|) && q.bufferSize > 0 && 2 <= q.parent
    requires v.fat[q.parent] != EMPTY_ENTRY && FirstDead(v.Dir(q.parent)) < TABLE_SIZE
    ensures FreeCellsOf(v.fat, Picked(v, q.bufferSize))
    ensures var cells, w := Picked(v, q.bufferSize), FileWritten(v, q, buf).vol;
            var e := FileEntry(q.name, q.ext, cells[0], q.bufferSize);
            && FileWritten(v, q, buf).code == 0
            && w.fat == Link(v.fat, cells)
            && w.raw[FAT_CLUSTER_NUMBER] == CellBytes(w.fat)
            && w.raw[q.parent] == TableBytes(v.Dir(q.parent)[FirstDead(v.Dir(q.parent)) := e])
            && (forall k :: 0 <= k < |cells| ==>
                  w.raw[cells[k]] == Chunk(Padded(buf, q.bufferSize, cells[|cells| - 1]), k))
            && (forall c :: 0 <= c < |v.raw| && c !in cells && c != FAT_CLUSTER_NUMBER && c != q.parent ==>
                  w.raw[c] == v.raw[c])
  {
    hide TableOf, TableBytes, CellBytes, Link, Store, Padded, Chunk, FileEntry, FilledUp, Clusters;
    var cells := Picked(v, q.bufferSize);
    FreeCells(v.fat, ROOT_CLUSTER_NUMBER);
    var t := v.Dir(q.parent);
    var entered := v.raw[q.parent := TableBytes(t[FirstDead(t) := FileEntry(q.name, q.ext, cells[0], q.bufferSize)])];
    StoreAt(entered, cells, Padded(buf, q.bufferSize, cells[|cells| - 1]));
    assert q.parent !in cells;
  }

  /** The header survives a change that leaves cells 0 to 2 and cluster 0 alone and
      writes the FAT through. */
  lemma HeaderKept(v: Volume, w: Volume)
    requires v.Shaped() && w.Shaped() && HeaderOk(v)
    requires w.raw[0] == v.raw[0] && w.raw[FAT_CLUSTER_NUMBER] == CellBytes(w.fat)
    requires w.fat[0] == v.fat[0] && w.fat[1] == v.fat[1] && w.fat[2] == v.fat[2]
    ensures HeaderOk(w)
  {
    hide CellBytes, Signature;
  }

  /** Free cells are no directory's. */
  lemma FreeCellsApart(v: Volume, s: Shape, cells: seq<nat>)
    requires Inv(v, s) && FreeCellsOf(v.fat, cells)
    ensures forall h :: h in s.chains ==> h !in cells
    ensures forall d :: d in s.depth ==> 2 <= d < CLUSTER_MAP_SIZE && d !in cells
    ensures ROOT_CLUSTER_NUMBER !in cells && 0 !in cells && 1 !in cells
  {
    hide TreeInv, TableOf, TablesOf, CellsOf, Signature;
    forall h | h in s.chains ensures h !in cells {
      HeadInUse(v.fat, s.chains, s.owner, h);
    }
    forall d | d in s.depth ensures 2 <= d < CLUSTER_MAP_SIZE && d !in cells {
      DirAt(v, s, d);
    }
    DepthKeys(TablesOf(v.raw, s.depth.Keys), s);
  }

  /** The entry a write adds is one the tree accepts. */
  lemma FreshIsAddable(v: Volume, s: Shape, d: nat, e: Entry)
    requires Inv(v, s) && FreshName(v, s, d, e.name) && FirstDead(v.Dir(d)) < TABLE_SIZE
    requires Live(e) && 2 <= ClusterNo(e) < CLUSTER_MAP_SIZE && v.fat[ClusterNo(e)] == EMPTY_ENTRY
    ensures Addable(TablesOf(v.raw, s.depth.Keys), s, d, e)
  {
    hide TableOf, FirstDead, TreeInv, HeapInv, ClusterNo, CellsOf, Signature;
    DirAt(v, s, d);
    FreeCellsApart(v, s, [ClusterNo(e)]);
    DirAt(v, s, ROOT_CLUSTER_NUMBER) by { DepthKeys(TablesOf(v.raw, s.depth.Keys), s); }
  }

  /** A file written to a directory keeps the volume in order. */
  lemma FileWriteKeepsInv(v: Volume, s: Shape, q: Request, buf: seq<byte>)
    requires Inv(v, s) && WriteReady(v, q, |buf|) && q.bufferSize > 0
    requires FreshName(v, s, q.parent, q.name) && FirstDead(v.Dir(q.parent)) < TABLE_SIZE
    ensures v.fat[q.parent] != EMPTY_ENTRY && FileWritten(v, q, buf).code == 0
    ensures Inv(FileWritten(v, q, buf).vol, ShapeAfterFile(v, s, q))
  {
    hide TableOf, TableBytes, CellBytes, CellsOf, Link, FileWritten, TreeInv, HeapInv, FirstDead, Clusters, Picked,
      FreeCellsOf, Signature, TablesOf, AddedOwners, Addable, HeaderOk;
    DirAt(v, s, q.parent);
    FileWrittenRaw(v, q, buf);
    var w, cells := FileWritten(v, q, buf).vol, Picked(v, q.bufferSize);
    var e := FileEntry(q.name, q.ext, cells[0], q.bufferSize);
    FreeCellsApart(v, s, cells);
    LinkMakesChain(v.fat, cells);
    FileWrittenShaped(v, q, buf);
    HeaderKept(v, w);
    AddChain(v.fat, s.chains, s.owner, cells);
    TablesUpdated(v.raw, w.raw, s.depth.Keys, q.parent, v.Dir(q.parent)[FirstDead(v.Dir(q.parent)) := e]);
    ClusterSplit(cells[0]);
    FreshIsAddable(v, s, q.parent, e);
    AddFile(TablesOf(v.raw, s.depth.Keys), s, AddedOwners(s.owner, cells), q.parent, e, cells);
  }

  // -- Making a folder --

  ghost function ShapeAfterFolder(v: Volume, s: Shape, d: nat): Shape
    requires |v.fat| == |v.raw| == CLUSTER_MAP_SIZE && d < CLUSTER_MAP_SIZE && 1 <= |Free(v.fat)|
    requires d in s.depth
  {
    var c := Free(v.fat)[0];
    FolderShape(s, AddedOwners(s.owner, [c]), c, (d, FirstDead(v.Dir(d))))
  }

  lemma FirstFree(v: Volume)
    requires |v.fat| == CLUSTER_MAP_SIZE && 1 <= |Free(v.fat)|
    ensures 2 <= Free(v.fat)[0] < CLUSTER_MAP_SIZE && FreeCellsOf(v.fat, [Free(v.fat)[0]])
    ensures Link(v.fat, [Free(v.fat)[0]]) == v.fat[Free(v.fat)[0] := END_OF_FILE]
  {
    FreeCells(v.fat, ROOT_CLUSTER_NUMBER);
  }

  lemma NewTableIsFresh(stack: Entry, name: Name, parent: uint32)
    requires parent < CLUSTER_MAP_SIZE
    ensures FreshTable(NewTable(stack, name, parent), name, parent)
  {
    ClusterSplit(parent);
  }

  /** A folder made in a directory that has a slot keeps the volume in order. */
  lemma FolderWriteKeepsInv(v: Volume, s: Shape, q: Request, stack: Entry, selfStack: Entry)
    requires Inv(v, s) && WriteReady(v, q, 0) && q.bufferSize == 0
    requires FreshName(v, s, q.parent, q.name) && FirstDead(v.Dir(q.parent)) < TABLE_SIZE
    ensures v.fat[q.parent] != EMPTY_ENTRY && FolderWritten(v, q, stack, selfStack).code == 0
    ensures Inv(FolderWritten(v, q, stack, selfStack).vol, ShapeAfterFolder(v, s, q.parent))
  {
    hide TableOf, TableBytes, CellBytes, CellsOf, Link, TreeInv, HeapInv, FirstDead, FreeCellsOf, Signature,
      TablesOf, AddedOwners, Addable, HeaderOk, NewTable, FreshTable;
    DirAt(v, s, q.parent);
    FirstFree(v);
    var w, c := FolderWritten(v, q, stack, selfStack).vol, Free(v.fat)[0];
    var e, table := FolderEntry(stack, q.name, c), NewTable(selfStack, q.name, q.parent);
    var entered := v.Dir(q.parent)[FirstDead(v.Dir(q.parent)) := e];
    FreeCellsApart(v, s, [c]);
    LinkMakesChain(v.fat, [c]);
    FolderWrittenShaped(v, q, stack, selfStack);
    HeaderKept(v, w);
    AddChain(v.fat, s.chains, s.owner, [c]);
    FolderTables(v.raw, w.raw, s.depth.Keys, q.parent, entered, c, table);
    ClusterSplit(c);
    NewTableIsFresh(selfStack, q.name, q.parent);
    FreshIsAddable(v, s, q.parent, e);
    AddFolder(TablesOf(v.raw, s.depth.Keys), s, AddedOwners(s.owner, [c]), q.parent, e, table);
    assert ShapeAfterFolder(v, s, q.parent).depth.Keys == s.depth.Keys + {c};
  }

  lemma FolderTables(raw: seq<seq<byte>>, raw': seq<seq<byte>>, dirs: set<nat>, d: nat, t: Table, c: nat, table: Table)
    requires |raw| == |raw'| && d in dirs && d < |raw| && c < |raw| && c !in dirs
    requires raw'[d] == TableBytes(t) && raw'[c] == TableBytes(table)
    requires forall x :: x in dirs && x < |raw| && x != d ==> raw'[x] == raw[x]
    ensures TablesOf(raw', dirs + {c}) == TablesOf(raw, dirs)[d := t][c := table]
  {
    hide TableOf, TableBytes;
    TableRoundTrip(t);
    TableRoundTrip(table);
  }

  // -- Deleting --

  ghost function ShapeAfterDelete(v: Volume, s: Shape, d: nat, i: nat): Shape
    requires d < |v.raw| && i < |v.Dir(d)|
  {
    var c := ClusterNo(v.Dir(d)[i]);
    DroppedShape(s, DroppedOwners(s.owner, if c in s.chains then s.chains[c] else []), c)
  }

  /** What is known of a live entry other than entry 0. */
  lemma LiveEntryAt(v: Volume, s: Shape, d: nat, i: nat)
    requires Inv(v, s) && d in s.depth && d < CLUSTER_MAP_SIZE && 1 <= i < |v.Dir(d)| && Live(v.Dir(d)[i])
    ensures var e := v.Dir(d)[i];
            var c := ClusterNo(e);
            && 2 < c < CLUSTER_MAP_SIZE && c in s.chains && c in s.home && s.home[c] == (d, i)
            && IsChain(v.fat, c, s.chains[c]) && Owned(s.owner, c, s.chains[c])
            && (e.filesize == 0 <==> c in s.depth)
            && (e.attribute == ATR_DIRECTORY <==> e.filesize == 0)
            && (e.filesize > 0 ==> |s.chains[c]| == Clusters(e.filesize))
            && Walkable(v.fat, c) && Chain(v.fat, c) == s.chains[c]
            && e.name != NO_NAME && FirstNamed(v.Dir(d), e.name) == i
  {
    hide TableOf, TreeInv, CellsOf, Signature, ClusterNo, Clusters, IsChain, Owned, Walkable, Chain;
    var ts := TablesOf(v.raw, s.depth.Keys);
    DirAt(v, s, d);
    At(ts, s, d);
    EntryAt(ts, s, d, i);
    HomeAt(ts, s, ClusterNo(v.Dir(d)[i]));
    DepthKeys(ts, s);
    HeadInUse(v.fat, s.chains, s.owner, ClusterNo(v.Dir(d)[i]));
    WalkIsChain(v.fat, ClusterNo(v.Dir(d)[i]), s.chains[ClusterNo(v.Dir(d)[i])]);
    SearchFindsLive(v.Dir(d), i);
  }

  /** A chain other than the root's avoids cells 0 to 2 and every other directory. */
  lemma ChainApart(v: Volume, s: Shape, c: nat)
    requires Inv(v, s) && c in s.chains && c != ROOT_CLUSTER_NUMBER
    ensures forall k :: 0 <= k < |s.chains[c]| ==> 2 < s.chains[c][k] < CLUSTER_MAP_SIZE
    ensures forall d :: d in s.depth && d != c ==> 2 <= d < CLUSTER_MAP_SIZE && d !in s.chains[c]
  {
    hide TreeInv, TableOf, CellsOf, Signature, TablesOf;
    DepthKeys(TablesOf(v.raw, s.depth.Keys), s);
    DirAt(v, s, ROOT_CLUSTER_NUMBER);
    forall d | d in s.depth && d != c ensures 2 <= d < CLUSTER_MAP_SIZE && d !in s.chains[c] {
      DirAt(v, s, d);
      ChainsDisjoint(v.fat, s.chains, s.owner, d, c);
    }
    ChainsDisjoint(v.fat, s.chains, s.owner, ROOT_CLUSTER_NUMBER, c);
    ChainAt(v.fat, s.chains, s.owner, c);
    forall k | 0 <= k < |s.chains[c]| ensures 2 < s.chains[c][k] < CLUSTER_MAP_SIZE {
      assert LinkOk(v.fat, s.chains[c], k) && s.chains[c][k] in s.chains[c];
    }
  }

  /** `w` is `v` with the chain `cells` freed and cleared and directory `d` rewritten. */
  ghost predicate FileDropped(v: Volume, w: Volume, d: nat, t: Table, cells: seq<nat>)
    requires v.Shaped() && d < CLUSTER_MAP_SIZE && forall k :: 0 <= k < |cells| ==> cells[k] < CLUSTER_MAP_SIZE
  {
    && w.Shaped() && w.fat == Release(v.fat, cells)
    && w.fat[0] == v.fat[0] && w.fat[1] == v.fat[1] && w.fat[2] == v.fat[2]
    && w.raw[FAT_CLUSTER_NUMBER] == CellBytes(w.fat)
    && w.raw[d] == TableBytes(t)
    && (forall c :: 0 <= c < |v.raw| && c !in cells && c != FAT_CLUSTER_NUMBER && c != d ==> w.raw[c] == v.raw[c])
    && (forall c :: 0 <= c < |v.raw| && c in cells ==> w.raw[c] == Zeros())
  }

  /** Where a file deletion leaves each cluster. */
  lemma FileDeletedRaw(v: Volume, d: nat, i: nat, cells: seq<nat>)
    requires v.Shaped() && 2 <= d < CLUSTER_MAP_SIZE && i < TABLE_SIZE && d !in cells
    requires forall k :: 0 <= k < |cells| ==> 2 < cells[k] < CLUSTER_MAP_SIZE
    requires Walkable(v.fat, ClusterNo(v.Dir(d)[i])) && Chain(v.fat, ClusterNo(v.Dir(d)[i])) == cells
    ensures FileDropped(v, FileDeleted(v, d, i), d, v.Dir(d)[i := ZERO_ENTRY], cells)
  {
    hide TableOf, TableBytes, CellBytes, Chain, Walkable, ClusterNo, ZERO_ENTRY;
    FileDeletedShaped(v, d, i);
  }

  /** The file branch of `delete` keeps the volume in order, on a file and also on an
      empty folder. */
  lemma FileDeleteKeepsInv(v: Volume, s: Shape, d: nat, i: nat)
    requires Inv(v, s) && d in s.depth && d < CLUSTER_MAP_SIZE && 1 <= i < |v.Dir(d)| && Live(v.Dir(d)[i])
    requires v.Dir(d)[i].filesize == 0 ==>
               ClusterNo(v.Dir(d)[i]) < CLUSTER_MAP_SIZE && !HasEntries(v.Dir(ClusterNo(v.Dir(d)[i])))
    ensures Walkable(v.fat, ClusterNo(v.Dir(d)[i]))
    ensures Inv(FileDeleted(v, d, i), ShapeAfterDelete(v, s, d, i))
  {
    hide TableOf, TableBytes, CellBytes, CellsOf, TreeInv, HeapInv, Signature, TablesOf, HeaderOk, ClusterNo, Clusters,
      IsChain, Owned, Walkable, Chain, DroppedOwners, FirstNamed, FileDeleted, Release, HasEntries;
    LiveEntryAt(v, s, d, i);
    DirAt(v, s, d);
    var ts, c, w := TablesOf(v.raw, s.depth.Keys), ClusterNo(v.Dir(d)[i]), FileDeleted(v, d, i);
    DepthKeys(ts, s);
    DropEntryAt(v, s, d, i, ZERO_ENTRY);
    ChainApart(v, s, c);
    ApartFromSelf(v, s, d, c);
    FileDeletedRaw(v, d, i, s.chains[c]);
    DropChain(v.fat, s.chains, s.owner, c);
    HeaderKept(v, w);
    TablesDropped(v.raw, w.raw, s.depth.Keys, d, v.Dir(d)[i := ZERO_ENTRY], c);
  }

  /** The folder branch of `delete` keeps the volume in order, on an empty folder and also
      on a file of one cluster. */
  lemma FolderDeleteKeepsInv(v: Volume, s: Shape, d: nat, i: nat)
    requires Inv(v, s) && d in s.depth && d < CLUSTER_MAP_SIZE && 1 <= i < |v.Dir(d)| && Live(v.Dir(d)[i])
    requires v.Dir(d)[i].filesize <= CLUSTER_SIZE && ClusterNo(v.Dir(d)[i]) < CLUSTER_MAP_SIZE
    requires v.Dir(d)[i].filesize == 0 ==> !HasEntries(v.Dir(ClusterNo(v.Dir(d)[i])))
    ensures Inv(FolderDeleted(v, d, i), ShapeAfterDelete(v, s, d, i))
  {
    hide TableOf, TableBytes, CellBytes, CellsOf, TreeInv, HeapInv, Signature, TablesOf, HeaderOk, ClusterNo,
      IsChain, Owned, Walkable, Chain, DroppedOwners, FirstNamed, HasEntries;
    LiveEntryAt(v, s, d, i);
    DirAt(v, s, d);
    var ts, c, w := TablesOf(v.raw, s.depth.Keys), ClusterNo(v.Dir(d)[i]), FolderDeleted(v, d, i);
    var dead := v.Dir(d)[i].(userAttribute := 0);
    DepthKeys(ts, s);
    DropEntryAt(v, s, d, i, dead);
    OneCell(v, s, d, i);
    ChainApart(v, s, c);
    DropChain(v.fat, s.chains, s.owner, c);
    assert w.fat == Release(v.fat, s.chains[c]);
    FolderDeletedShaped(v, d, i);
    HeaderKept(v, w);
    TablesDropped(v.raw, w.raw, s.depth.Keys, d, v.Dir(d)[i := dead], c);
  }

  lemma OneCell(v: Volume, s: Shape, d: nat, i: nat)
    requires Inv(v, s) && d in s.depth && d < CLUSTER_MAP_SIZE && 1 <= i < |v.Dir(d)| && Live(v.Dir(d)[i])
    requires v.Dir(d)[i].filesize <= CLUSTER_SIZE
    ensures ClusterNo(v.Dir(d)[i]) in s.chains && s.chains[ClusterNo(v.Dir(d)[i])] == [ClusterNo(v.Dir(d)[i])]
  {
    hide TableOf, TreeInv, HeapInv, HeaderOk, ClusterNo, Walkable;
    LiveEntryAt(v, s, d, i);
    if v.Dir(d)[i].filesize == 0 { DirAt(v, s, ClusterNo(v.Dir(d)[i])); }
  }

  lemma ApartFromSelf(v: Volume, s: Shape, d: nat, c: nat)
    requires Inv(v, s) && d in s.depth && c in s.chains && c != d
    ensures d !in s.chains[c]
  {
    hide TreeInv, TableOf, HeaderOk, TablesOf;
    DirAt(v, s, d);
    ChainsDisjoint(v.fat, s.chains, s.owner, d, c);
  }

  /** Without the chain at `c`, and with `t` for directory `d`, the tables are a tree. */
  ghost predicate TreeWithout(ts: Tables, s: Shape, d: nat, t: Table, c: nat) {
    && c != d && c in s.chains
    && TreeInv((ts - {c})[d := t], DroppedShape(s, DroppedOwners(s.owner, s.chains[c]), c))
  }

  /** Slot `i` given up: the tree is still one. */
  lemma DropEntryAt(v: Volume, s: Shape, d: nat, i: nat, e: Entry)
    requires v.Shaped() && d in s.depth && d < CLUSTER_MAP_SIZE && 1 <= i < |v.Dir(d)| && Live(v.Dir(d)[i])
    requires !Live(e) && (e.name == NO_NAME || e.name == v.Dir(d)[i].name) && ClusterNo(v.Dir(d)[i]) < CLUSTER_MAP_SIZE
    requires v.Dir(d)[i].filesize == 0 ==> !HasEntries(v.Dir(ClusterNo(v.Dir(d)[i])))
    requires Inv(v, s)
    ensures TreeWithout(TablesOf(v.raw, s.depth.Keys), s, d, v.Dir(d)[i := e], ClusterNo(v.Dir(d)[i]))
  {
    hide TableOf, TreeInv, HeapInv, HeaderOk, ClusterNo, Clusters, IsChain, Owned, Walkable, Chain, DroppedOwners,
      FirstNamed, HasEntries, TablesOf;
    var ts, c := TablesOf(v.raw, s.depth.Keys), ClusterNo(v.Dir(d)[i]);
    LiveEntryAt(v, s, d, i);
    DirAt(v, s, d);
    DepthKeys(ts, s);
    if c in s.depth { DirAt(v, s, c); }
    DropEntry(ts, s, DroppedOwners(s.owner, s.chains[c]), d, i, e);
  }

  lemma TablesDropped(raw: seq<seq<byte>>, raw': seq<seq<byte>>, dirs: set<nat>, d: nat, t: Table, c: nat)
    requires |raw| == |raw'| && d in dirs && d < |raw| && d != c && raw'[d] == TableBytes(t)
    requires forall x :: x in dirs && x < |raw| && x != d && x != c ==> raw'[x] == raw[x]
    ensures TablesOf(raw', dirs - {c}) == (TablesOf(raw, dirs) - {c})[d := t]
  {
    hide TableOf, TableBytes;
    TablesUpdated(raw, raw', dirs - {c}, d, t);
    assert TablesOf(raw, dirs - {c}) == TablesOf(raw, dirs) - {c};
  }
}
