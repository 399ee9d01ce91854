/** When `write` leaves the volume in order. The code never answers "already exists", takes
    any used cell for a parent directory, and does not look for a slot before it takes a
    folder's cluster. */
module WriteOrder {
  import opened Layout
  import opened Volume
  import opened Heap
  import opened Tree
  import opened Consistency
  import opened Names
  import opened Reached

  // -- A name written twice --

  lemma SlotFilled(t: Table, e: Entry)
    requires FirstDead(t) < |t|
    ensures NoNewEntry(t[FirstDead(t) := e], t)
  {
  }

  /** A directory with a live name twice, or an empty one, is in no order. */
  lemma NameTwice(v: Volume, s: Shape, w: Volume, z: Shape, d: nat, name: Name, e: Entry)
    requires |w.raw| == CLUSTER_MAP_SIZE && d in s.depth && d < CLUSTER_MAP_SIZE && Inv(v, s)
    requires NothingLost(v, s, w, s.depth[d])
    requires FirstDead(v.Dir(d)) < |v.Dir(d)| && w.Dir(d) == v.Dir(d)[FirstDead(v.Dir(d)) := e]
    requires Live(e) && e.name == name && !FreshName(v, s, d, name)
    ensures !Inv(w, z)
  {
    hide TableOf, TreeInv, HeaderOk, HeapInv, NothingLost, NamesOk;
    if Inv(w, z) {
      StillReached(v, s, w, z, d, s.depth[d]);
      NamesAt(w, z, d);
      TwiceNamed(v.Dir(d), FirstDead(v.Dir(d)), e);
    }
  }

  lemma TwiceNamed(t: Table, j: nat, e: Entry)
    requires j < |t| && !Live(t[j]) && Live(e)
    requires e.name == NO_NAME || exists i :: 0 <= i < |t| && Live(t[i]) && t[i].name == e.name
    ensures !NamesOk(t[j := e])
  {
    var t' := t[j := e];
    if e.name == NO_NAME {
      assert !NameOk(t', j);
    } else {
      var i :| 0 <= i < |t| && Live(t[i]) && t[i].name == e.name;
      assert t'[i].name == t'[j].name;
      assert !NameOk(t', if i < j then j else i);
    }
  }

  lemma FileTwice(v: Volume, s: Shape, q: Request, buf: seq<byte>, z: Shape)
    requires WriteReady(v, q, |buf|) && q.bufferSize > 0 && q.parent in s.depth && Inv(v, s)
    requires FirstDead(v.Dir(q.parent)) < TABLE_SIZE && !FreshName(v, s, q.parent, q.name)
    ensures !Inv(FileWritten(v, q, buf).vol, z)
  {
    hide TableOf, TableBytes, CellBytes, TreeInv, HeaderOk, HeapInv, FileWritten, FirstDead, FreeCellsOf, Clusters,
      FreshName, NoNewEntry, Link, Picked, Padded, Chunk, SizedClusters;
    DirAt(v, s, q.parent);
    FileWrittenRaw(v, q, buf);
    FileWrittenShaped(v, q, buf);
    var w, cells := FileWritten(v, q, buf).vol, Picked(v, q.bufferSize);
    var t, e := v.Dir(q.parent), FileEntry(q.name, q.ext, cells[0], q.bufferSize);
    FreeCellsApart(v, s, cells);
    TableRoundTrip(t[FirstDead(t) := e]);
    SlotFilled(t, e);
    forall p | p in s.depth && p < CLUSTER_MAP_SIZE ensures NoNewEntry(w.Dir(p), v.Dir(p)) {
      DirAt(v, s, p);
      SameTable(v.Dir(p));
    }
    NameTwice(v, s, w, z, q.parent, q.name, e);
  }

  lemma FolderTwice(v: Volume, s: Shape, q: Request, stack: Entry, selfStack: Entry, z: Shape)
    requires WriteReady(v, q, 0) && q.bufferSize == 0 && q.parent in s.depth && Inv(v, s)
    requires !FreshName(v, s, q.parent, q.name) && FirstDead(v.Dir(q.parent)) < TABLE_SIZE
    ensures !Inv(FolderWritten(v, q, stack, selfStack).vol, z)
  {
    hide TableOf, TreeInv, HeaderOk, HeapInv, FolderWritten, FirstDead, FreeCellsOf, Clusters, FreshName, NoNewEntry,
      NewTable, FolderEntry;
    FolderWriteAnswers(v, s, q, stack, selfStack);
    FirstFree(v);
    DirAt(v, s, q.parent);
    FolderWrittenRaw(v, q, stack, selfStack);
    var w, c := FolderWritten(v, q, stack, selfStack).vol, Free(v.fat)[0];
    var t, j, e := v.Dir(q.parent), FirstDead(v.Dir(q.parent)), FolderEntry(stack, q.name, c);
    FreeCellsApart(v, s, [c]);
    SlotFilled(t, e);
    forall p | p in s.depth && p < CLUSTER_MAP_SIZE ensures NoNewEntry(w.Dir(p), v.Dir(p)) {
      DirAt(v, s, p);
      SameTable(v.Dir(p));
    }
    FolderEntryIs(stack, q.name, c);
    NameTwice(v, s, w, z, q.parent, q.name, e);
  }

  lemma FolderEntryIs(stack: Entry, name: Name, c: nat)
    requires c < CLUSTER_MAP_SIZE
    ensures Live(FolderEntry(stack, name, c)) && FolderEntry(stack, name, c).name == name
  {
  }

  // -- Cells taken for nobody --

  /** Nothing points at the first of the cells just linked. */
  lemma FirstUnpointed(fat: seq<uint32>, chains: Chains, owner: Owners, cells: seq<nat>)
    requires HeapInv(fat, chains, owner) && FreeCellsOf(fat, cells) && 0 < |cells|
    ensures Unpointed(Link(fat, cells), cells[0])
  {
    hide HeapInv, Link;
    LinkMakesChain(fat, cells);
    var linked := Link(fat, cells);
    forall y | 2 <= y < |linked| ensures linked[y] != cells[0] {
      if y in cells {
        var k :| 0 <= k < |cells| && cells[k] == y;
        assert LinkOk(linked, cells, k);
      } else if fat[y] == cells[0] {
        UsedPointsAtUsed(fat, chains, owner, y);
      }
    }
  }

  /** Free cells linked while every directory stays as it was: no shape fits that. */
  lemma TakenForNobody(v: Volume, s: Shape, w: Volume, cells: seq<nat>, z: Shape)
    requires v.Shaped() && w.Shaped() && 0 < |cells| && FreeCellsOf(v.fat, cells) && w.fat == Link(v.fat, cells)
    requires forall p :: p in s.depth && p < CLUSTER_MAP_SIZE ==> w.raw[p] == v.raw[p]
    requires Inv(v, s)
    ensures !Inv(w, z)
  {
    hide TableOf, TreeInv, HeaderOk, HeapInv, FreeCellsOf, Link, ClusterNo, Unpointed, NoNewEntry;
    var x := cells[0];
    FirstUnpointed(v.fat, s.chains, s.owner, cells);
    LinkMakesChain(v.fat, cells);
    ChainInUse(w.fat, cells, x, x);
    FreeCellsApart(v, s, cells);
    forall p | p in s.depth && p < CLUSTER_MAP_SIZE ensures UnnamedIn(w.Dir(p), x) && NoNewEntry(v.Dir(p), w.Dir(p)) {
      SameTable(v.Dir(p));
      forall j | 1 <= j < |w.Dir(p)| && Live(w.Dir(p)[j])
        ensures ClusterNo(w.Dir(p)[j]) != x
      {
        LiveEntryAt(v, s, p, j);
      }
    }
    Stray(v, s, w, x, z);
  }

  /** What a file write leaves alone, whatever it was given for a parent. */
  lemma FileLeavesRest(v: Volume, q: Request, buf: seq<byte>)
    requires v.Shaped() && WriteReady(v, q, |buf|) && q.bufferSize > 0
    requires v.fat[q.parent] != EMPTY_ENTRY && FirstDead(v.Dir(q.parent)) < TABLE_SIZE
    ensures Clusters(q.bufferSize) <= |Free(v.fat)| && FreeCellsOf(v.fat, Picked(v, q.bufferSize))
    ensures var cells, w := Picked(v, q.bufferSize), FileWritten(v, q, buf).vol;
            && FileWritten(v, q, buf).code == 0 && w.Shaped() && w.fat == Link(v.fat, cells)
            && forall c :: 0 <= c < CLUSTER_MAP_SIZE && c !in cells && c != FAT_CLUSTER_NUMBER && c != q.parent ==>
                 w.raw[c] == v.raw[c]
  {
    hide TableOf, TableBytes, CellBytes, Link, Store, Padded, Chunk, FileEntry, FirstDead, Clusters;
    var cells, t := Picked(v, q.bufferSize), v.Dir(q.parent);
    FreeCells(v.fat, ROOT_CLUSTER_NUMBER);
    var entered := v.raw[q.parent := TableBytes(t[FirstDead(t) := FileEntry(q.name, q.ext, cells[0], q.bufferSize)])];
    StoreAt(entered, cells, Padded(buf, q.bufferSize, cells[|cells| - 1]));
    FileWrittenShaped(v, q, buf);
  }

  lemma FileElsewhere(v: Volume, s: Shape, q: Request, buf: seq<byte>, z: Shape)
    requires v.Shaped() && WriteReady(v, q, |buf|) && q.bufferSize > 0 && q.parent !in s.depth
    requires v.fat[q.parent] != EMPTY_ENTRY && FirstDead(v.Dir(q.parent)) < TABLE_SIZE && Inv(v, s)
    ensures !Inv(FileWritten(v, q, buf).vol, z)
  {
    hide TableOf, TreeInv, HeaderOk, HeapInv, FileWritten, FirstDead, FreeCellsOf, Clusters, Link, Picked;
    FileLeavesRest(v, q, buf);
    FreeCellsApart(v, s, Picked(v, q.bufferSize));
    TakenForNobody(v, s, FileWritten(v, q, buf).vol, Picked(v, q.bufferSize), z);
  }

  /** A folder whose entry goes nowhere: its parent is full, or is no directory. */
  lemma FolderElsewhere(v: Volume, s: Shape, q: Request, stack: Entry, selfStack: Entry, z: Shape)
    requires v.Shaped() && WriteReady(v, q, 0) && q.bufferSize == 0 && v.fat[q.parent] != EMPTY_ENTRY
    requires q.parent !in s.depth || FirstDead(v.Dir(q.parent)) == TABLE_SIZE
    requires Inv(v, s)
    ensures !Inv(FolderWritten(v, q, stack, selfStack).vol, z)
  {
    hide TableOf, TreeInv, HeaderOk, HeapInv, NewTable, TableBytes, CellBytes, Clusters, FreeCellsOf, Link;
    FirstFree(v);
    FolderWrittenShaped(v, q, stack, selfStack);
    var w, c := FolderWritten(v, q, stack, selfStack).vol, Free(v.fat)[0];
    FreeCellsApart(v, s, [c]);
    TableBytesRoundTrip(v.raw[q.parent]);
    TakenForNobody(v, s, w, [c], z);
  }

  // -- Exactly when --

  lemma Refused(v: Volume, q: Request, buf: seq<byte>, stack: Entry, selfStack: Entry)
    requires v.Shaped() && WriteReady(v, q, |buf|)
    ensures var o := Written(v, q, buf, stack, selfStack);
            && (o.code == 2 <==> v.fat[q.parent] == EMPTY_ENTRY)
            && (o.code == -1 <==>
                  v.fat[q.parent] != EMPTY_ENTRY && q.bufferSize > 0 && FirstDead(v.Dir(q.parent)) == TABLE_SIZE)
            && (o.code == 0 || o.code == 2 || o.code == -1) && (o.code != 0 ==> o.vol == v)
  {
    hide TableOf, TableBytes, CellBytes, Free, NewTable, FirstDead, Clusters, Padded, Link, Picked;
  }

  /** "Invalid parent" is the answer for just the parents that are no live directory, if
      and only if the one given is a directory or a free cell: a cell of a file, or cells
      0 and 1, are taken for directories. */
  lemma InvalidParentIff(v: Volume, s: Shape, q: Request, buf: seq<byte>, stack: Entry, selfStack: Entry)
    requires v.Shaped() && WriteReady(v, q, |buf|) && Inv(v, s)
    ensures (Written(v, q, buf, stack, selfStack).code == 2 <==> q.parent !in s.depth)
            <==> q.parent in s.depth || v.fat[q.parent] == EMPTY_ENTRY
  {
    hide TableOf, TreeInv, HeaderOk, HeapInv, Written, FirstDead;
    Refused(v, q, buf, stack, selfStack);
    if q.parent in s.depth { DirAt(v, s, q.parent); }
  }

  /** Writing a file leaves the volume in order exactly when the call is refused, or the
      parent is a live directory and the name is new there and not empty. */
  lemma FileWriteOrderlyIff(v: Volume, s: Shape, q: Request, buf: seq<byte>)
    requires v.Shaped() && WriteReady(v, q, |buf|) && q.bufferSize > 0 && Inv(v, s)
    ensures Orderly(FileWritten(v, q, buf).vol)
            <==> FileWritten(v, q, buf).code != 0 || FreshName(v, s, q.parent, q.name)
  {
    hide TreeInv, HeapInv, HeaderOk, FirstDead, FileWritten, TableOf, FreshName, Clusters;
    Refused(v, q, buf, ZERO_ENTRY, ZERO_ENTRY);
    if FreshName(v, s, q.parent, q.name) { FreshInDirectory(v, s, q); }
    var w := FileWritten(v, q, buf).vol;
    if FileWritten(v, q, buf).code == 0 {
      if FreshName(v, s, q.parent, q.name) {
        FileWriteKeepsInv(v, s, q, buf);
      } else if q.parent in s.depth {
        forall z ensures !Inv(w, z) { FileTwice(v, s, q, buf, z); }
      } else {
        forall z ensures !Inv(w, z) { FileElsewhere(v, s, q, buf, z); }
      }
    }
  }

  lemma FreshInDirectory(v: Volume, s: Shape, q: Request)
    requires FreshName(v, s, q.parent, q.name)
    ensures q.parent in s.depth
  {
  }

  /** Making a folder leaves the volume in order exactly when the call is refused, or the
      parent is a live directory with a free slot and the name is new there and not empty.
      Otherwise the call still answers 0. The name is then doubled or empty, or, with no slot
      or a parent that is no directory, the cluster it took is in use but nobody's. */
  lemma FolderWriteOrderlyIff(v: Volume, s: Shape, q: Request, stack: Entry, selfStack: Entry)
    requires v.Shaped() && WriteReady(v, q, 0) && q.bufferSize == 0 && Inv(v, s)
    ensures Orderly(FolderWritten(v, q, stack, selfStack).vol)
            <==> || FolderWritten(v, q, stack, selfStack).code != 0
                 || (FreshName(v, s, q.parent, q.name) && FirstDead(v.Dir(q.parent)) < TABLE_SIZE)
  {
    hide TreeInv, HeapInv, HeaderOk, FirstDead, FolderWritten, TableOf, FreshName;
    Refused(v, q, [], stack, selfStack);
    if FreshName(v, s, q.parent, q.name) { FreshInDirectory(v, s, q); }
    var w := FolderWritten(v, q, stack, selfStack).vol;
    if FolderWritten(v, q, stack, selfStack).code == 0 {
      if q.parent !in s.depth || FirstDead(v.Dir(q.parent)) == TABLE_SIZE {
        forall z ensures !Inv(w, z) { FolderElsewhere(v, s, q, stack, selfStack, z); }
      } else if FreshName(v, s, q.parent, q.name) {
        FolderWriteKeepsInv(v, s, q, stack, selfStack);
      } else {
        forall z ensures !Inv(w, z) { FolderTwice(v, s, q, stack, selfStack, z); }
      }
    }
  }

  lemma FolderWriteAnswers(v: Volume, s: Shape, q: Request, stack: Entry, selfStack: Entry)
    requires Inv(v, s) && WriteReady(v, q, 0) && q.bufferSize == 0 && q.parent in s.depth
    ensures v.fat[q.parent] != EMPTY_ENTRY && 1 <= |Free(v.fat)|
    ensures FolderWritten(v, q, stack, selfStack).code == 0
    ensures FirstDead(v.Dir(q.parent)) <= TABLE_SIZE
  {
    hide TreeInv, HeapInv, TableOf, NewTable, TableBytes, CellBytes;
    DirAt(v, s, q.parent);
  }
}
