/** What a deleted folder leaves behind, in states callers can reach: a folder is made and
    deleted, and its name is used again. */
module LeftOvers {
  import opened Layout
  import opened Volume
  import opened Heap
  import opened Tree
  import opened Consistency
  import opened Names
  import opened Runs
  import opened Exact
  import opened Reached
  import opened Undo
  import opened WrongBranch
  import opened Searches
  import opened FindCommand

  /** The dead entry of a folder made by `q` and deleted again. */
  function LeftEntry(stack: Entry, name: Name, c: nat): Entry
    requires c < CLUSTER_MAP_SIZE
  {
    FolderEntry(stack, name, c).(userAttribute := 0)
  }

  /** `u` is `v`, with a dead entry of a folder that was made and deleted in directory `d`. */
  ghost predicate Left(v: Volume, s: Shape, q: Request, stack: Entry, u: Volume)
    requires v.Shaped() && q.parent < CLUSTER_MAP_SIZE
  {
    && 1 <= |Free(v.fat)| && Free(v.fat)[0] < CLUSTER_MAP_SIZE && 2 <= q.parent
    && FirstDead(v.Dir(q.parent)) < |v.Dir(q.parent)| == TABLE_SIZE && 1 <= FirstDead(v.Dir(q.parent))
    && u.Shaped() && u.fat == v.fat
    && u.Dir(q.parent) == v.Dir(q.parent)[FirstDead(v.Dir(q.parent)) := LeftEntry(stack, q.name, Free(v.fat)[0])]
    && forall c :: 2 <= c < CLUSTER_MAP_SIZE && v.fat[c] != EMPTY_ENTRY && c != q.parent ==> u.raw[c] == v.raw[c]
  }

  /** The request that deletes a folder of this name. */
  function AsFolder(q: Request): Request {
    q.(ext := NO_EXT)
  }

  /** The volume after making the folder and deleting it. */
  ghost function MadeAndDeleted(v: Volume, q: Request, stack: Entry, selfStack: Entry): Volume
    requires v.Shaped() && WriteReady(v, q, 0) && q.bufferSize == 0
  {
    var w := FolderWritten(v, q, stack, selfStack).vol;
    if w.Shaped() && DeleteReady(w, AsFolder(q)) then Deleted(w, AsFolder(q)).vol else w
  }

  lemma FolderLeft(v: Volume, s: Shape, q: Request, stack: Entry, selfStack: Entry)
    requires v.Shaped() && WriteReady(v, q, 0) && q.bufferSize == 0
    requires FreshName(v, s, q.parent, q.name) && FirstDead(v.Dir(q.parent)) < TABLE_SIZE && Inv(v, s)
    ensures var u := MadeAndDeleted(v, q, stack, selfStack);
            Left(v, s, q, stack, u) && Inv(u, s) && Abs(u, s) == Abs(v, s)
  {
    hide TableOf, TableBytes, TreeInv, HeapInv, HeaderOk, Abs, FolderWritten, FolderDeleted, FirstDead, FirstNamed,
      ClusterNo, FolderEntry, HasEntries, ShapeAfterFolder, ShapeAfterDelete, NamesOk;
    DeleteUndoesFolderWrite(v, s, q, stack, selfStack, AsFolder(q));
    FolderMade(v, s, q, stack, selfStack);
    var w, j := FolderWritten(v, q, stack, selfStack).vol, FirstDead(v.Dir(q.parent));
    LiveEntryAt(w, ShapeAfterFolder(v, s, q.parent), q.parent, j);
    DroppedDir(w, q.parent, j);
    FirstFree(v);
  }

  lemma LeftEntryIs(stack: Entry, name: Name, c: nat)
    requires c < CLUSTER_MAP_SIZE
    ensures var e := LeftEntry(stack, name, c);
            !Live(e) && e.name == name && e.attribute == ATR_DIRECTORY && ClusterNo(e) == c && e.filesize == 0
  {
    ClusterSplit(c);
  }

  // -- Searched for --

  /** No folder entry is left over at all. */
  ghost predicate NoneLeft(v: Volume, s: Shape) {
    forall d :: d in s.depth && d < |v.raw| ==> NoneLeftIn(v.Dir(d))
  }

  ghost predicate NoneLeftIn(t: Table) {
    forall j :: 0 <= j < |t| && !Live(t[j]) ==> t[j].attribute != ATR_DIRECTORY
  }

  lemma LeftIsOnly(v: Volume, s: Shape, q: Request, stack: Entry, u: Volume)
    requires v.Shaped() && q.parent in s.depth && q.parent < CLUSTER_MAP_SIZE && Left(v, s, q, stack, u)
    requires NoneLeft(v, s)
    requires Inv(v, s)
    ensures LeftOnly(u, s, q.name) && LeftOver(u, s, q.name)
  {
    hide TableOf, TreeInv, HeapInv, HeaderOk, FirstDead, LeftEntry;
    var j, e := FirstDead(v.Dir(q.parent)), LeftEntry(stack, q.name, Free(v.fat)[0]);
    LeftEntryIs(stack, q.name, Free(v.fat)[0]);
    forall d | d in s.depth && d < |u.raw| ensures LeftOnlyIn(u.Dir(d), q.name) {
      DirAt(v, s, d);
      assert NoneLeftIn(v.Dir(d));
    }
    assert u.Dir(q.parent)[j] == e;
    assert LeftIn(u.Dir(q.parent), q.name);
  }

  /** A folder made and deleted is still found: `find` may be run, every right answer to it
      is a hit, and no directory lists the name. */
  lemma DeletedFolderIsHit(v: Volume, s: Shape, q: Request, stack: Entry, selfStack: Entry, hit: Hit)
    requires v.Shaped() && WriteReady(v, q, 0) && q.bufferSize == 0
    requires FreshName(v, s, q.parent, q.name) && FirstDead(v.Dir(q.parent)) < TABLE_SIZE
    requires NoneLeft(v, s) && !Listed(Abs(v, s), q.name) && Inv(v, s)
    ensures var u := MadeAndDeleted(v, q, stack, selfStack);
            && u.Shaped() && Inv(u, s) && LeftOnly(u, s, q.name) && !Listed(Abs(u, s), q.name)
            && (Answers(u, s, q.name, hit) ==> hit.HeldBy?)
  {
    hide TableOf, TreeInv, HeapInv, HeaderOk, Abs, FolderWritten, FirstDead, Left, NoneLeft, LeftOnly, LeftOver, Listed,
      MadeAndDeleted;
    FolderLeft(v, s, q, stack, selfStack);
    var u := MadeAndDeleted(v, q, stack, selfStack);
    LeftIsOnly(v, s, q, stack, u);
    if Answers(u, s, q.name, hit) {
      HitIff(u, s, q.name, hit);
      if hit.RootItself? { RootListed(u, s); }
    }
  }

  lemma RootListed(v: Volume, s: Shape)
    requires Inv(v, s)
    ensures Listed(Abs(v, s), ROOT_NAME)
  {
    hide Inv, Abs;
    RootIsLive(v, s);
  }

  // -- Deleted once more --

  /** A file written elsewhere takes the cell of the folder that was deleted. */
  lemma FileTakesCell(v: Volume, s: Shape, q: Request, stack: Entry, u: Volume, f: Request, buf: seq<byte>)
    requires v.Shaped() && q.parent in s.depth && q.parent < CLUSTER_MAP_SIZE && q.name != NO_NAME
    requires Left(v, s, q, stack, u)
    requires forall i :: 0 <= i < |v.Dir(q.parent)| && Live(v.Dir(q.parent)[i]) ==> v.Dir(q.parent)[i].name != q.name
    requires u.Shaped() && WriteReady(u, f, |buf|) && f.bufferSize > 0 && f.parent != q.parent
    requires FreshName(u, s, f.parent, f.name) && FirstDead(u.Dir(f.parent)) < TABLE_SIZE && Inv(v, s) && Inv(u, s)
    ensures var x, c := FileWritten(u, f, buf).vol, Free(v.fat)[0];
            && c < CLUSTER_MAP_SIZE && x.Shaped() && x.fat[c] != EMPTY_ENTRY
            && var i := FirstNamed(x.Dir(q.parent), q.name);
               i < |x.Dir(q.parent)| && !Live(x.Dir(q.parent)[i]) && ClusterNo(x.Dir(q.parent)[i]) == c
  {
    hide TableOf, TableBytes, CellBytes, TreeInv, HeapInv, HeaderOk, FileWritten, FirstDead, FirstNamed, FreeCellsOf,
      Link, FileEntry, Clusters, Padded, Chunk, Picked, LeftEntry, ClusterNo, Free;
    DirAt(u, s, f.parent);
    DirAt(u, s, q.parent);
    FileWrittenRaw(u, f, buf);
    FileWrittenShaped(u, f, buf);
    FirstPicked(u, f);
    var x, cells, c := FileWritten(u, f, buf).vol, Picked(u, f.bufferSize), Free(v.fat)[0];
    FreeCellsApart(u, s, cells);
    LinkMakesChain(u.fat, cells);
    ChainInUse(x.fat, cells, c, c);
    assert x.Dir(q.parent) == u.Dir(q.parent);
    LeftEntryIs(stack, q.name, c);
    FirstOfName(v.Dir(q.parent), q.name, FirstDead(v.Dir(q.parent)), LeftEntry(stack, q.name, c));
  }

  lemma FirstPicked(u: Volume, f: Request)
    requires u.Shaped() && f.bufferSize > 0 && Clusters(f.bufferSize) <= |Free(u.fat)|
    ensures |Free(u.fat)| >= 1 && Picked(u, f.bufferSize)[0] == Free(u.fat)[0]
  {
  }

  /** Make a folder, delete it, and delete it once more with an extension: the entry found
      is dead, its cell is free, and the walk from there leaves the map. */
  lemma SecondDeleteLeavesMap(v: Volume, s: Shape, q: Request, stack: Entry, selfStack: Entry, r: Request)
    requires v.Shaped() && WriteReady(v, q, 0) && q.bufferSize == 0
    requires FreshName(v, s, q.parent, q.name) && FirstDead(v.Dir(q.parent)) < TABLE_SIZE && Inv(v, s)
    requires r.parent == q.parent && r.name == q.name && r.ext != NO_EXT
    ensures var u := MadeAndDeleted(v, q, stack, selfStack);
            && u.Shaped() && Inv(u, s) && q.parent in Abs(u, s) && q.name !in Abs(u, s)[q.parent]
            && !DeleteReady(u, r)
  {
    hide TableOf, TableBytes, CellBytes, TreeInv, HeapInv, HeaderOk, Abs, FolderWritten, FirstDead, FirstNamed,
      ClusterNo, Listing, MadeAndDeleted, DeleteReady, LeftEntry, Free;
    FolderLeft(v, s, q, stack, selfStack);
    var u, c := MadeAndDeleted(v, q, stack, selfStack), Free(v.fat)[0];
    NotListedYet(v, s, q);
    LeftEntryIs(stack, q.name, c);
    FirstOfName(v.Dir(q.parent), q.name, FirstDead(v.Dir(q.parent)), LeftEntry(stack, q.name, c));
    FreeCells(v.fat, ROOT_CLUSTER_NUMBER);
    DeleteReadyIff(u, s, r);
  }

  /** Make folder A, delete it, write a file to another directory, and delete A once more:
      unless the file's bytes look like live entries the call answers 0, though A is long
      gone, and frees the first cell of the file. */
  lemma SecondDeleteFreesFile(v: Volume, s: Shape, q: Request, stack: Entry, selfStack: Entry, f: Request,
                              buf: seq<byte>)
    requires v.Shaped() && WriteReady(v, q, 0) && q.bufferSize == 0
    requires FreshName(v, s, q.parent, q.name) && FirstDead(v.Dir(q.parent)) < TABLE_SIZE && Inv(v, s)
    requires var u := MadeAndDeleted(v, q, stack, selfStack);
             && u.Shaped() && WriteReady(u, f, |buf|) && f.bufferSize > 0 && f.parent != q.parent
             && FreshName(u, s, f.parent, f.name) && FirstDead(u.Dir(f.parent)) < TABLE_SIZE
    ensures var u := MadeAndDeleted(v, q, stack, selfStack);
            && Clusters(f.bufferSize) <= |Free(u.fat)|
            && var x, c, r := FileWritten(u, f, buf).vol, Picked(u, f.bufferSize)[0], AsFolder(q);
            && x.Shaped() && Inv(x, ShapeAfterFile(u, s, f)) && DeleteReady(x, r)
            && q.parent in Abs(x, ShapeAfterFile(u, s, f)) && q.name !in Abs(x, ShapeAfterFile(u, s, f))[q.parent]
            && Deleted(x, r).code == (if HasEntries(x.Dir(c)) then 2 else 0)
            && (Deleted(x, r).code == 0 ==>
                  x.fat[c] != EMPTY_ENTRY && Deleted(x, r).vol.Shaped() && Deleted(x, r).vol.fat[c] == EMPTY_ENTRY
                  && !Orderly(Deleted(x, r).vol))
  {
    hide TableOf, TableBytes, CellBytes, TreeInv, HeapInv, HeaderOk, Abs, FolderWritten, FirstDead, FirstNamed,
      ClusterNo, HasEntries, FileWritten, ShapeAfterFile, Left, Clusters, Picked, MadeAndDeleted, Orderly, Listing,
      Deleted;
    FolderLeft(v, s, q, stack, selfStack);
    var u := MadeAndDeleted(v, q, stack, selfStack);
    FileWriteKeepsInv(u, s, f, buf);
    FileWriteAdds(u, s, f, buf);
    FirstPicked(u, f);
    FileTakesCell(v, s, q, stack, u, f, buf);
    var x, z, c := FileWritten(u, f, buf).vol, ShapeAfterFile(u, s, f), Picked(u, f.bufferSize)[0];
    StillDirectory(u, s, f, q.parent);
    NotListedYet(v, s, q);
    LeftFat(v, s, q, stack, u);
    DeleteFreesUsed(x, z, AsFolder(q), c);
  }

  lemma LeftFat(v: Volume, s: Shape, q: Request, stack: Entry, u: Volume)
    requires v.Shaped() && q.parent < CLUSTER_MAP_SIZE && Left(v, s, q, stack, u)
    ensures u.fat == v.fat && 1 <= |Free(v.fat)|
  {
  }

  /** The folder branch on a dead entry that names a used cell. */
  lemma DeleteFreesUsed(x: Volume, z: Shape, q: Request, c: nat)
    requires x.Shaped() && q.name != NO_NAME && q.ext == NO_EXT && q.parent in z.depth && q.parent < CLUSTER_MAP_SIZE
    requires FirstNamed(x.Dir(q.parent), q.name) < |x.Dir(q.parent)| == TABLE_SIZE
    requires !Live(x.Dir(q.parent)[FirstNamed(x.Dir(q.parent), q.name)])
    requires ClusterNo(x.Dir(q.parent)[FirstNamed(x.Dir(q.parent), q.name)]) == c < CLUSTER_MAP_SIZE
    requires x.fat[c] != EMPTY_ENTRY && Inv(x, z)
    ensures DeleteReady(x, q) && Deleted(x, q).code == (if HasEntries(x.Dir(c)) then 2 else 0)
    ensures Deleted(x, q).code == 0 ==>
              Deleted(x, q).vol.Shaped() && Deleted(x, q).vol.fat[c] == EMPTY_ENTRY && !Orderly(Deleted(x, q).vol)
  {
    hide TableOf, TreeInv, HeapInv, HeaderOk, FirstNamed, ClusterNo, HasEntries, Orderly, FolderDeleted;
    if Deleted(x, q).code == 0 {
      DeleteOrderlyIff(x, z, q);
      DropShaped(x, q.parent, FirstNamed(x.Dir(q.parent), q.name));
    }
  }

  lemma DropShaped(x: Volume, d: nat, i: nat)
    requires x.Shaped() && d < CLUSTER_MAP_SIZE && i < TABLE_SIZE && ClusterNo(x.Dir(d)[i]) < CLUSTER_MAP_SIZE
    ensures var w := FolderDeleted(x, d, i); w.Shaped() && w.fat[ClusterNo(x.Dir(d)[i])] == EMPTY_ENTRY
  {
    hide TableOf, TableBytes, CellBytes, ClusterNo;
    FolderDeletedShaped(x, d, i);
  }

  lemma StillDirectory(u: Volume, s: Shape, f: Request, d: nat)
    requires |u.fat| == |u.raw| == CLUSTER_MAP_SIZE && f.bufferSize > 0 && f.parent < CLUSTER_MAP_SIZE
    requires Clusters(f.bufferSize) <= |Free(u.fat)| && d in s.depth
    ensures d in ShapeAfterFile(u, s, f).depth
  {
  }

  lemma NotListedYet(v: Volume, s: Shape, q: Request)
    requires v.Shaped() && FreshName(v, s, q.parent, q.name) && Inv(v, s)
    ensures q.parent in Abs(v, s) && q.name !in Abs(v, s)[q.parent]
  {
    hide TableOf, TreeInv, HeapInv, HeaderOk, Abs, Listing, NamesOk;
    AbsAt(v, s, q.parent);
  }
}
