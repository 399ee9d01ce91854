/** Runs told by the plain model alone: a caller who knows the names, and which of them it
    deleted as folders, can tell which calls it may make. */
module PlainRuns {
  import opened Layout
  import opened Volume
  import opened Heap
  import opened Tree
  import opened Consistency
  import opened Names
  import opened Runs
  import opened RunTheorems
  import opened Space
  import opened Startup
  import opened Paths
  import opened Searches

  /** Names that were deleted as folders, with the directory they were in. */
  type LeftNames = set<(nat, seq<byte>)>

  /** The dead entries of directory `d` are blank or bear a name known to be left there. */
  ghost predicate DeadKnown(t: Table, d: nat, left: LeftNames) {
    forall j :: 0 <= j < |t| && !Live(t[j]) ==>
      if t[j].name == NO_NAME then t[j].attribute != ATR_DIRECTORY else (d, t[j].name) in left
  }

  ghost predicate LeftKnown(v: Volume, s: Shape, left: LeftNames) {
    forall d :: d in s.depth && d < |v.raw| ==> DeadKnown(v.Dir(d), d, left)
  }

  // -- What a caller may do --

  /** Nothing is left over under this name, or it is in use. */
  ghost predicate Clear(fs: FileSystem, left: LeftNames, d: nat, n: seq<byte>) {
    d in fs && (n in fs[d] || (d, n) !in left)
  }

  ghost predicate HasRoom(fs: FileSystem, size: nat) {
    Taken(fs) + size <= CLUSTER_MAP_SIZE - ROOT_CLUSTER_NUMBER
  }

  /** The call is one the caller may make, by the names alone. */
  ghost predicate Polite(fs: FileSystem, left: LeftNames, op: Op) {
    var d, n := op.q.parent, op.q.name;
    match op
    case Write(q, buf, _, _) =>
      && d in fs && n != NO_NAME && n !in fs[d] && HasRoom(fs, 1)
      && if q.bufferSize == 0 then |fs[d]| < TABLE_SIZE
         else |fs[d]| < TABLE_SIZE ==>
                HasRoom(fs, Clusters(q.bufferSize)) && CLUSTER_SIZE * Clusters(q.bufferSize) <= |buf|
    case Delete(q) =>
      n == NO_NAME
      || (&& Clear(fs, left, d, n)
          && (n in fs[d] ==> (fs[d][n].Folder? <==> q.ext == NO_EXT))
          && (d == ROOT_CLUSTER_NUMBER && n == ROOT_NAME ==> !Empty(fs[d])))
    case ReadFile(_) => n == NO_NAME || Clear(fs, left, d, n)
    case ReadFolder(q) => q.bufferSize != CLUSTER_SIZE || (n != NO_NAME && Clear(fs, left, d, n))
  }

  lemma ClearNotStale(v: Volume, s: Shape, left: LeftNames, d: nat, n: Name)
    requires LeftKnown(v, s, left) && Clear(Abs(v, s), left, d, n) && n != NO_NAME && Inv(v, s)
    ensures d in s.depth && d < CLUSTER_MAP_SIZE && NotStale(v, d, n)
  {
    hide TableOf, TreeInv, HeapInv, HeaderOk, Abs, Listing, NamesOk;
    AbsKeys(v, s);
    AbsAt(v, s, d);
    if n in Abs(v, s)[d] {
      KnownNameReadable(v, s, d, n);
    } else {
      assert DeadKnown(v.Dir(d), d, left);
    }
  }

  /** A name not deleted as a folder from a directory is never found dead in it. */
  lemma NotLeftNotStale(v: Volume, s: Shape, left: LeftNames, d: nat, n: Name)
    requires LeftKnown(v, s, left) && d in s.depth && (d, n) !in left && n != NO_NAME && Inv(v, s)
    ensures d < CLUSTER_MAP_SIZE && NotStale(v, d, n)
  {
    hide TableOf, TreeInv, HeapInv, HeaderOk, Abs;
    AbsKeys(v, s);
    ClearNotStale(v, s, left, d, n);
  }

  lemma PoliteWriteOwed(v: Volume, s: Shape, left: LeftNames, op: Op)
    requires op.Write? && Polite(Abs(v, s), left, op) && Inv(v, s)
    ensures Owed(v, s, op)
  {
    hide TableOf, TreeInv, HeapInv, HeaderOk, Abs, Listing, FirstDead, Free, Clusters, Taken, NamesOk;
    AbsKeys(v, s);
    AbsAt(v, s, op.q.parent);
    DirAt(v, s, op.q.parent);
    FullIffAllNamed(v, s, op.q.parent);
    SpaceAddsUp(v, s);
    NameCount(v, s, op.q.parent);
    NoClusters();
  }

  lemma NameCount(v: Volume, s: Shape, d: nat)
    requires Inv(v, s) && d in s.depth
    ensures d in Abs(v, s) && |Abs(v, s)[d]| <= TABLE_SIZE
  {
    hide TableOf, TreeInv, HeapInv, HeaderOk, Abs, Listing, NamesOk, NamesBelow;
    AbsAt(v, s, d);
    var t := v.Dir(d);
    NamesBelowCount(t, |t|);
    NamesBelowAre(t, |t|);
    assert NamesBelow(t, |t|) == LiveNames(t);
  }

  lemma NoClusters()
    ensures Clusters(0) == 0
  {
  }

  lemma PoliteDeleteOwed(v: Volume, s: Shape, left: LeftNames, op: Op)
    requires op.Delete? && Polite(Abs(v, s), left, op) && LeftKnown(v, s, left) && Inv(v, s)
    ensures Owed(v, s, op)
  {
    hide TableOf, TreeInv, HeapInv, HeaderOk, Abs, Listing, NotStale, LeftKnown, FirstNamed, ClusterNo, Walkable,
      Chain, Empty, HasEntries, Clusters, NamesOk;
    var d, n := op.q.parent, op.q.name;
    if n != NO_NAME {
      ClearNotStale(v, s, left, d, n);
      NameKnown(v, s, d, n);
      AbsAt(v, s, d);
      var i := FirstNamed(v.Dir(d), n);
      if i < |v.Dir(d)| {
        FoundLive(v, d, n);
        NodeAt(v, s, d, i);
        if i == 0 && d == ROOT_CLUSTER_NUMBER {
          RootName(v, s);
          EmptyIffNoEntries(v, s, d);
        }
      }
    }
  }

  lemma FoundLive(v: Volume, d: nat, n: Name)
    requires d < |v.raw| && NotStale(v, d, n) && FirstNamed(v.Dir(d), n) < |v.Dir(d)|
    ensures Live(v.Dir(d)[FirstNamed(v.Dir(d), n)]) && v.Dir(d)[FirstNamed(v.Dir(d), n)].name == n
  {
  }

  /** A caller who looks at the names alone gives all that it owes. */
  lemma PoliteIsOwed(v: Volume, s: Shape, left: LeftNames, op: Op)
    requires Polite(Abs(v, s), left, op) && LeftKnown(v, s, left) && Inv(v, s)
    ensures Owed(v, s, op)
  {
    hide TableOf, TreeInv, HeapInv, HeaderOk, Abs, NotStale, LeftKnown, Taken;
    match op {
      case Write(_, _, _, _) => PoliteWriteOwed(v, s, left, op);
      case Delete(_) => PoliteDeleteOwed(v, s, left, op);
      case ReadFile(q) => if q.name != NO_NAME { ClearNotStale(v, s, left, q.parent, q.name); }
      case ReadFolder(q) =>
        if q.bufferSize == CLUSTER_SIZE { ClearNotStale(v, s, left, q.parent, q.name); }
    }
  }

  // -- What is left over after a call --

  /** A folder deleted leaves its name; a directory that is gone takes its own along. */
  ghost function NextLeft(left: LeftNames, op: Op, r: Reply, fs': FileSystem): LeftNames {
    set x | x in (if op.Delete? && op.q.ext == NO_EXT && r.code == 0 then left + {(op.q.parent, op.q.name)} else left)
            && x.0 in fs' :: x
  }

  lemma SlotKnown(t: Table, j: nat, e: Entry, d: nat, left: LeftNames, left': LeftNames)
    requires DeadKnown(t, d, left) && j < |t|
    requires forall n :: (d, n) in left ==> (d, n) in left'
    requires Live(e) || (if e.name == NO_NAME then e.attribute != ATR_DIRECTORY else (d, e.name) in left')
    ensures DeadKnown(t[j := e], d, left')
  {
    hide Live;
  }

  lemma SameKnown(t: Table, d: nat, left: LeftNames, left': LeftNames)
    requires DeadKnown(t, d, left) && forall n :: (d, n) in left ==> (d, n) in left'
    ensures DeadKnown(t, d, left')
  {
  }

  lemma NewTableKnown(stack: Entry, name: Name, parent: uint32, d: nat, left: LeftNames)
    ensures DeadKnown(NewTable(stack, name, parent), d, left)
  {
  }

  /** The tables after a file is written: one slot is live now. */
  lemma FileWriteKnown(v: Volume, s: Shape, q: Request, buf: seq<byte>, left: LeftNames, left': LeftNames)
    requires v.Shaped() && WriteReady(v, q, |buf|) && q.bufferSize > 0 && LeftKnown(v, s, left)
    requires FreshName(v, s, q.parent, q.name) && FirstDead(v.Dir(q.parent)) < TABLE_SIZE
    requires forall d, n :: d in s.depth && (d, n) in left ==> (d, n) in left'
    requires Inv(v, s)
    ensures v.fat[q.parent] != EMPTY_ENTRY && Clusters(q.bufferSize) <= |Free(v.fat)|
    ensures LeftKnown(FileWritten(v, q, buf).vol, ShapeAfterFile(v, s, q), left')
  {
    hide TableOf, TableBytes, CellBytes, TreeInv, HeapInv, HeaderOk, FileWritten, FirstDead, FreeCellsOf, Link,
      Clusters, Padded, Chunk, Picked, DeadKnown, FileEntry;
    DirAt(v, s, q.parent);
    FileWrittenRaw(v, q, buf);
    var w, cells := FileWritten(v, q, buf).vol, Picked(v, q.bufferSize);
    var t, e := v.Dir(q.parent), FileEntry(q.name, q.ext, cells[0], q.bufferSize);
    FreeCellsApart(v, s, cells);
    TableRoundTrip(t[FirstDead(t) := e]);
    FileEntryLive(q, cells[0]);
    forall d | d in s.depth && d < |w.raw| ensures DeadKnown(w.Dir(d), d, left') {
      DirAt(v, s, d);
      SameKnown(v.Dir(d), d, left, left');
      if d == q.parent { SlotKnown(t, FirstDead(t), e, d, left, left'); }
    }
  }

  lemma FileEntryLive(q: Request, c: nat)
    requires c < CLUSTER_MAP_SIZE
    ensures Live(FileEntry(q.name, q.ext, c, q.bufferSize))
  {
  }

  lemma FolderWriteKnown(v: Volume, s: Shape, q: Request, stack: Entry, selfStack: Entry, left: LeftNames,
                         left': LeftNames)
    requires v.Shaped() && WriteReady(v, q, 0) && q.bufferSize == 0 && LeftKnown(v, s, left)
    requires FreshName(v, s, q.parent, q.name) && FirstDead(v.Dir(q.parent)) < TABLE_SIZE
    requires forall d, n :: d in s.depth && (d, n) in left ==> (d, n) in left'
    requires Inv(v, s)
    ensures v.fat[q.parent] != EMPTY_ENTRY && 1 <= |Free(v.fat)|
    ensures LeftKnown(FolderWritten(v, q, stack, selfStack).vol, ShapeAfterFolder(v, s, q.parent), left')
  {
    hide TableOf, TableBytes, CellBytes, TreeInv, HeapInv, HeaderOk, FolderWritten, FirstDead, FreeCellsOf, Clusters,
      DeadKnown, FolderEntry, NewTable, ShapeAfterFolder;
    DirAt(v, s, q.parent);
    FirstFree(v);
    FolderWrittenRaw(v, q, stack, selfStack);
    var w, c := FolderWritten(v, q, stack, selfStack).vol, Free(v.fat)[0];
    var t, e := v.Dir(q.parent), FolderEntry(stack, q.name, c);
    FreeCellsApart(v, s, [c]);
    FolderEntryLive(stack, q.name, c);
    NewTableKnown(selfStack, q.name, q.parent, c, left');
    FolderKeys(v, s, q.parent);
    forall d | d in s.depth + map[c := 0] && d < |w.raw| ensures DeadKnown(w.Dir(d), d, left') {
      if d != c {
        DirAt(v, s, d);
        SameKnown(v.Dir(d), d, left, left');
        if d == q.parent { SlotKnown(t, FirstDead(t), e, d, left, left'); }
      }
    }
  }

  lemma FolderEntryLive(stack: Entry, name: Name, c: nat)
    requires c < CLUSTER_MAP_SIZE
    ensures Live(FolderEntry(stack, name, c))
  {
  }

  lemma FolderKeys(v: Volume, s: Shape, d: nat)
    requires |v.fat| == |v.raw| == CLUSTER_MAP_SIZE && d < CLUSTER_MAP_SIZE && 1 <= |Free(v.fat)| && d in s.depth
    ensures ShapeAfterFolder(v, s, d).depth.Keys == s.depth.Keys + {Free(v.fat)[0]}
  {
  }

  /** The tables after a deletion: one slot is dead now, blank or with its folder's name. */
  lemma DeleteKnown(v: Volume, s: Shape, d: nat, i: nat, e: Entry, w: Volume, left: LeftNames, left': LeftNames)
    requires v.Shaped() && w.Shaped() && d in s.depth && d < CLUSTER_MAP_SIZE && i < |v.Dir(d)| && LeftKnown(v, s, left)
    requires w.Dir(d) == v.Dir(d)[i := e] && (e == ZERO_ENTRY || (e.name != NO_NAME && (d, e.name) in left'))
    requires forall x :: x in ShapeAfterDelete(v, s, d, i).depth && x < CLUSTER_MAP_SIZE && x != d ==>
               x in s.depth && w.raw[x] == v.raw[x]
    requires forall x, n :: x in ShapeAfterDelete(v, s, d, i).depth && (x, n) in left ==> (x, n) in left'
    ensures LeftKnown(w, ShapeAfterDelete(v, s, d, i), left')
  {
    hide TableOf, DeadKnown, ClusterNo;
    var z := ShapeAfterDelete(v, s, d, i);
    forall x | x in z.depth && x < |w.raw| ensures DeadKnown(w.Dir(x), x, left') {
      SameKnown(v.Dir(x), x, left, left');
      if x == d { SlotKnown(v.Dir(d), i, e, d, left, left'); }
    }
  }

  lemma SameLeft(v: Volume, s: Shape, left: LeftNames, left': LeftNames)
    requires LeftKnown(v, s, left) && forall d, n :: d in s.depth && (d, n) in left ==> (d, n) in left'
    ensures LeftKnown(v, s, left')
  {
    hide TableOf, DeadKnown;
    forall d | d in s.depth && d < |v.raw|
      ensures DeadKnown(v.Dir(d), d, left')
    {
      SameKnown(v.Dir(d), d, left, left');
    }
  }

  /** What stays known: names in directories that are still there. */
  lemma StaysLeft(left: LeftNames, op: Op, r: Reply, w: Volume, z: Shape)
    requires Inv(w, z)
    ensures forall d, n :: d in z.depth && (d, n) in left ==> (d, n) in NextLeft(left, op, r, Abs(w, z))
    ensures op.Delete? && op.q.ext == NO_EXT && r.code == 0 && op.q.parent in z.depth ==>
              (op.q.parent, op.q.name) in NextLeft(left, op, r, Abs(w, z))
  {
    hide TreeInv, HeapInv, HeaderOk, TableOf, Abs;
    AbsKeys(w, z);
  }

  lemma DeleteFileKnown(v: Volume, s: Shape, d: nat, i: nat, left: LeftNames, left': LeftNames)
    requires v.Shaped() && d in s.depth && d < CLUSTER_MAP_SIZE && 1 <= i < |v.Dir(d)| && Live(v.Dir(d)[i])
    requires LeftKnown(v, s, left)
    requires v.Dir(d)[i].filesize > 0 && Inv(v, s)
    requires forall x, n :: x in ShapeAfterDelete(v, s, d, i).depth && (x, n) in left ==> (x, n) in left'
    ensures Walkable(v.fat, ClusterNo(v.Dir(d)[i])) && |v.Dir(d)| == TABLE_SIZE
    ensures LeftKnown(FileDeleted(v, d, i), ShapeAfterDelete(v, s, d, i), left')
  {
    hide TableOf, TableBytes, CellBytes, TreeInv, HeapInv, HeaderOk, ClusterNo, Clusters, IsChain, Owned, Walkable,
      Chain, DroppedOwners, FileDeleted, LeftKnown, ZERO_ENTRY, Zeros;
    LiveEntryAt(v, s, d, i);
    DirAt(v, s, d);
    var c, w := ClusterNo(v.Dir(d)[i]), FileDeleted(v, d, i);
    ChainApart(v, s, c);
    FileDeletedRaw(v, d, i, s.chains[c]);
    TableRoundTrip(v.Dir(d)[i := ZERO_ENTRY]);
    DeleteKnown(v, s, d, i, ZERO_ENTRY, w, left, left');
  }

  lemma DeleteFolderKnown(v: Volume, s: Shape, d: nat, i: nat, left: LeftNames, left': LeftNames)
    requires v.Shaped() && d in s.depth && d < CLUSTER_MAP_SIZE && 1 <= i < |v.Dir(d)| && Live(v.Dir(d)[i])
    requires LeftKnown(v, s, left)
    requires v.Dir(d)[i].filesize == 0 && (d, v.Dir(d)[i].name) in left' && Inv(v, s)
    requires forall x, n :: x in ShapeAfterDelete(v, s, d, i).depth && (x, n) in left ==> (x, n) in left'
    ensures ClusterNo(v.Dir(d)[i]) < CLUSTER_MAP_SIZE && |v.Dir(d)| == TABLE_SIZE
    ensures LeftKnown(FolderDeleted(v, d, i), ShapeAfterDelete(v, s, d, i), left')
  {
    hide TableOf, TableBytes, CellBytes, TreeInv, HeapInv, HeaderOk, ClusterNo, Clusters, IsChain, Owned, Walkable,
      Chain, DroppedOwners, LeftKnown, FirstNamed;
    LiveEntryAt(v, s, d, i);
    DirAt(v, s, d);
    var w, e := FolderDeleted(v, d, i), v.Dir(d)[i].(userAttribute := 0);
    FolderDeletedShaped(v, d, i);
    TableRoundTrip(v.Dir(d)[i := e]);
    forall x | x in s.depth && x != d ensures x != FAT_CLUSTER_NUMBER { DirAt(v, s, x); }
    DeleteKnown(v, s, d, i, e, w, left, left');
  }

  lemma DeleteLeft(v: Volume, s: Shape, left: LeftNames, op: Op)
    requires v.Shaped() && op.Delete? && Owed(v, s, op) && Ready(v, op) && LeftKnown(v, s, left) && Inv(v, s)
    requires Inv(Next(v, op), NextShape(v, s, op))
    ensures LeftKnown(Next(v, op), NextShape(v, s, op),
                      NextLeft(left, op, Answer(v, op), Abs(Next(v, op), NextShape(v, s, op))))
  {
    hide TableOf, TreeInv, HeapInv, HeaderOk, Abs, FirstNamed, FileDeleted, FolderDeleted, ShapeAfterDelete,
      HasEntries, ClusterNo, Walkable, Chain, LeftKnown, NextLeft, Clusters, NamesOk;
    var q, r := op.q, Answer(v, op);
    var w, z := Next(v, op), NextShape(v, s, op);
    var left' := NextLeft(left, op, r, Abs(w, z));
    StaysLeft(left, op, r, w, z);
    if q.name == NO_NAME || FirstNamed(v.Dir(q.parent), q.name) == |v.Dir(q.parent)| {
      SameLeft(v, s, left, left');
    } else {
      var i := FirstNamed(v.Dir(q.parent), q.name);
      FoundLive(v, q.parent, q.name);
      NodeAt(v, s, q.parent, i);
      StillParent(v, s, q.parent, i);
      if v.Dir(q.parent)[i].filesize > 0 {
        DeleteFileKnown(v, s, q.parent, i, left, left');
      } else if HasEntries(v.Dir(ClusterNo(v.Dir(q.parent)[i]))) {
        SameLeft(v, s, left, left');
      } else {
        SelfCluster(v, s, q.parent) by { DirAt(v, s, q.parent); }
        DeleteFolderKnown(v, s, q.parent, i, left, left');
      }
    }
  }

  /** A directory is not what one of its entries leads to, so it stays when that goes. */
  lemma StillParent(v: Volume, s: Shape, d: nat, i: nat)
    requires v.Shaped() && d in s.depth && d < CLUSTER_MAP_SIZE && i < |v.Dir(d)| && Live(v.Dir(d)[i]) && Inv(v, s)
    ensures 1 <= i ==> d in ShapeAfterDelete(v, s, d, i).depth
    ensures ClusterNo(v.Dir(d)[i]) < CLUSTER_MAP_SIZE
  {
    hide TableOf, TreeInv, HeapInv, HeaderOk, ClusterNo, NamesOk, Walkable, Chain, Clusters;
    var ts := TablesOf(v.raw, s.depth.Keys);
    DirAt(v, s, d);
    At(ts, s, d);
    if i >= 1 { LiveEntryAt(v, s, d, i); } else { SelfCluster(v, s, d); }
  }

  /** After any call a caller owes, what was known to be left over still is all there is. */
  lemma LeftKept(v: Volume, s: Shape, left: LeftNames, op: Op)
    requires v.Shaped() && Owed(v, s, op) && Ready(v, op) && LeftKnown(v, s, left)
    requires Inv(v, s) && Inv(Next(v, op), NextShape(v, s, op))
    ensures LeftKnown(Next(v, op), NextShape(v, s, op),
                      NextLeft(left, op, Answer(v, op), Abs(Next(v, op), NextShape(v, s, op))))
  {
    hide TableOf, TreeInv, HeapInv, HeaderOk, Abs, FileWritten, FolderWritten, FirstDead, ShapeAfterFile,
      ShapeAfterFolder, LeftKnown, NextLeft, Clusters, Free, Deleted, NotStale;
    var q, left' := op.q, NextLeft(left, op, Answer(v, op), Abs(Next(v, op), NextShape(v, s, op)));
    StaysLeft(left, op, Answer(v, op), Next(v, op), NextShape(v, s, op));
    match op {
      case Write(_, buf, stack, selfStack) =>
        if v.fat[q.parent] == EMPTY_ENTRY {
          NowhereSame(v, q, buf, stack, selfStack);
          SameLeft(v, s, left, left');
        } else if q.bufferSize == 0 {
          FolderShapeKeeps(v, s, q.parent);
          FolderWriteKnown(v, s, q, stack, selfStack, left, left');
        } else if FirstDead(v.Dir(q.parent)) == |v.Dir(q.parent)| {
          FullWrite(v, q, buf) by { DirAt(v, s, q.parent); }
          SameLeft(v, s, left, left');
        } else {
          FileShapeKeeps(v, s, q) by { DirAt(v, s, q.parent); }
          FileWriteKnown(v, s, q, buf, left, left') by { DirAt(v, s, q.parent); }
        }
      case Delete(_) => DeleteLeft(v, s, left, op);
      case ReadFile(_) => SameLeft(v, s, left, left');
      case ReadFolder(_) => SameLeft(v, s, left, left');
    }
  }

  lemma NowhereSame(v: Volume, q: Request, buf: seq<byte>, stack: Entry, selfStack: Entry)
    requires v.Shaped() && WriteReady(v, q, |buf|) && v.fat[q.parent] == EMPTY_ENTRY
    ensures Written(v, q, buf, stack, selfStack).vol == v
  {
  }

  lemma FolderShapeKeeps(v: Volume, s: Shape, d: nat)
    requires |v.fat| == |v.raw| == CLUSTER_MAP_SIZE && d < CLUSTER_MAP_SIZE && 1 <= |Free(v.fat)| && d in s.depth
    ensures forall x :: x in s.depth ==> x in ShapeAfterFolder(v, s, d).depth
  {
  }

  lemma FileShapeKeeps(v: Volume, s: Shape, q: Request)
    requires |v.fat| == |v.raw| == CLUSTER_MAP_SIZE && q.bufferSize > 0 && q.parent < CLUSTER_MAP_SIZE
    requires Clusters(q.bufferSize) <= |Free(v.fat)|
    ensures ShapeAfterFile(v, s, q).depth == s.depth
  {
  }

  // -- Runs --

  /** Each call of the run is one its caller may make, by the names it then sees. */
  ghost predicate EachPolite(v: Volume, s: Shape, left: LeftNames, ops: seq<Op>)
    requires v.Shaped()
    decreases |ops|
  {
    ops == []
    || (&& Polite(Abs(v, s), left, ops[0])
        && (Owed(v, s, ops[0]) && Ready(v, ops[0]) && Next(v, ops[0]).Shaped() ==>
              var w, z := Next(v, ops[0]), NextShape(v, s, ops[0]);
              EachPolite(w, z, NextLeft(left, ops[0], Answer(v, ops[0]), Abs(w, z)), ops[1..])))
  }

  /** Callers who look at the names alone give what they owe along the whole run. */
  lemma {:induction false} PoliteSuffices(v: Volume, s: Shape, left: LeftNames, ops: seq<Op>)
    requires v.Shaped() && LeftKnown(v, s, left) && EachPolite(v, s, left, ops) && Inv(v, s)
    ensures AllOwed(v, s, ops)
    decreases |ops|
  {
    hide TreeInv, HeapInv, HeaderOk, Abs, Owed, Ready, Next, NextShape, Answer, SpecStep, Refines, Polite, NextLeft,
      LeftKnown;
    if ops != [] {
      PoliteIsOwed(v, s, left, ops[0]);
      CallRefines(v, s, ops[0]);
      RefinesFacts(v, s, ops[0]);
      LeftKept(v, s, left, ops[0]);
      var w, z := Next(v, ops[0]), NextShape(v, s, ops[0]);
      PoliteSuffices(w, z, NextLeft(left, ops[0], Answer(v, ops[0]), Abs(w, z)), ops[1..]);
    }
  }

  lemma FormatKnown(v: Volume, stack: Entry)
    requires v.Shaped() && forall c :: 2 < c < |v.fat| ==> v.fat[c] == EMPTY_ENTRY
    ensures LeftKnown(Formatted(v, stack), RootShape(), {})
  {
    hide TableOf, TableBytes, CellBytes, Signature, NewTable, Formatted, DeadKnown;
    FormattedRaw(v, stack);
    TableRoundTrip(NewTable(stack, ROOT_NAME, ROOT_CLUSTER_NUMBER));
    NewTableKnown(stack, ROOT_NAME, ROOT_CLUSTER_NUMBER, ROOT_CLUSTER_NUMBER, {});
  }

  /** The run finds all it needs, does what the plain model does from `fs`, reply by reply,
      and ends in order. */
  ghost predicate Simulates(v: Volume, s: Shape, ops: seq<Op>, fs: FileSystem)
    requires v.Shaped()
  {
    && AllOwed(v, s, ops)
    && var (u, z) := After(v, s, ops);
    Inv(u, z) && SpecRun(fs, ops, Answers(v, s, ops), Abs(u, z))
  }

  /** From a freshly formatted disk the driver simulates the plain model over every run
      whose calls a caller may make by the names alone. */
  lemma RunsFromFormat(v: Volume, stack: Entry, ops: seq<Op>)
    requires v.Shaped() && forall c :: 2 < c < |v.fat| ==> v.fat[c] == EMPTY_ENTRY
    requires EachPolite(Formatted(v, stack), RootShape(), {}, ops)
    ensures Simulates(Formatted(v, stack), RootShape(), ops,
                      map[ROOT_CLUSTER_NUMBER := map[ROOT_NAME := Folder(ROOT_CLUSTER_NUMBER)]])
  {
    hide TreeInv, HeapInv, HeaderOk, Abs, EachPolite, AllOwed, After, Answers, SpecRun, Formatted, LeftKnown;
    var f := Formatted(v, stack);
    FormatInv(v, stack);
    FormatKnown(v, stack);
    PoliteSuffices(f, RootShape(), {}, ops);
    RunRefines(f, RootShape(), ops);
  }

  // -- What `cd` and `find` ask of the volume --

  /** No name left over reads as the component. */
  ghost predicate NoneReads(left: LeftNames, part: seq<byte>) {
    forall x :: x in left ==> |x.1| != 8 || !(x.1[0] != 0 && NameLength(x.1) == |part| && x.1[..|part|] == part)
  }

  lemma ClearFromLeft(v: Volume, s: Shape, left: LeftNames, part: seq<byte>)
    requires LeftKnown(v, s, left) && NoneReads(left, part)
    ensures ClearOf(v, s, part)
  {
    hide TableOf, NameLength;
    forall d | d in s.depth && d < |v.raw| ensures ClearTable(v.Dir(d), part) {
      assert DeadKnown(v.Dir(d), d, left);
    }
  }

  lemma OnlyFromLeft(v: Volume, s: Shape, left: LeftNames, name: Name)
    requires LeftKnown(v, s, left) && forall x :: x in left ==> x.1 == name
    ensures LeftOnly(v, s, name)
  {
    hide TableOf;
    forall d | d in s.depth && d < |v.raw| ensures LeftOnlyIn(v.Dir(d), name) { assert DeadKnown(v.Dir(d), d, left); }
  }

  /** Every name reads as a C string. */
  ghost predicate PaddedNames(fs: FileSystem) {
    forall d, n :: d in fs && n in fs[d] ==> |n| == 8 && IsPadded(n)
  }

  /** With nothing left over and padded names a volume is tidy. */
  lemma TidyFromNames(v: Volume, s: Shape)
    requires LeftKnown(v, s, {}) && PaddedNames(Abs(v, s)) && Inv(v, s)
    ensures Tidy(v, s)
  {
    hide TableOf, TreeInv, HeapInv, HeaderOk, Abs, Listing, IsPadded, FirstNamed, ClusterNo, Walkable, Chain;
    forall d | d in s.depth && d < |v.raw| ensures TidyTable(v.Dir(d)) {
      assert DeadKnown(v.Dir(d), d, {});
      forall j | 0 <= j < |v.Dir(d)| && Live(v.Dir(d)[j]) ensures IsPadded(v.Dir(d)[j].name) { NodeAt(v, s, d, j); }
    }
  }

  // -- Names that read as C strings --

  /** Every name left over reads as a C string. */
  ghost predicate PaddedLeft(left: LeftNames) {
    forall x :: x in left ==> |x.1| == 8 && IsPadded(x.1)
  }

  predicate WritesPadded(op: Op) {
    op.Write? ==> IsPadded(op.q.name)
  }

  lemma ReadableFromNames(v: Volume, s: Shape, left: LeftNames)
    requires LeftKnown(v, s, left) && PaddedLeft(left) && PaddedNames(Abs(v, s)) && Inv(v, s)
    ensures Readable(v, s)
  {
    hide TableOf, TreeInv, HeapInv, HeaderOk, Abs, Listing, IsPadded, FirstNamed, ClusterNo, Walkable, Chain;
    forall d | d in s.depth && d < |v.raw| ensures ReadableTable(v.Dir(d)) {
      assert DeadKnown(v.Dir(d), d, left);
      forall j | 0 <= j < |v.Dir(d)| && Live(v.Dir(d)[j]) ensures IsPadded(v.Dir(d)[j].name) { NodeAt(v, s, d, j); }
    }
  }

  lemma StepKeepsPadded(fs: FileSystem, op: Op, fs': FileSystem, r: Reply)
    requires SpecStep(fs, op, fs', r) && PaddedNames(fs) && WritesPadded(op)
    ensures PaddedNames(fs')
  {
    hide IsPadded;
  }

  /** A folder deleted had a name in use. */
  lemma StepKeepsPaddedLeft(fs: FileSystem, left: LeftNames, op: Op, fs': FileSystem, r: Reply)
    requires SpecStep(fs, op, fs', r) && PaddedNames(fs) && PaddedLeft(left)
    ensures PaddedLeft(NextLeft(left, op, r, fs'))
  {
    hide IsPadded;
  }

  /** The names left over after a run. */
  ghost function LeftAfter(v: Volume, s: Shape, left: LeftNames, ops: seq<Op>): LeftNames
    requires v.Shaped() && AllOwed(v, s, ops)
    decreases |ops|
  {
    if ops == [] then left
    else
      var w, z := Next(v, ops[0]), NextShape(v, s, ops[0]);
      LeftAfter(w, z, NextLeft(left, ops[0], Answer(v, ops[0]), Abs(w, z)), ops[1..])
  }

  /** Runs that write padded names keep every name readable, those of folders deleted on the
      way included, and what is left over known. */
  lemma {:induction false} RunStaysReadable(v: Volume, s: Shape, left: LeftNames, ops: seq<Op>)
    requires LeftKnown(v, s, left) && PaddedLeft(left) && PaddedNames(Abs(v, s)) && Inv(v, s) && AllOwed(v, s, ops)
    requires forall i :: 0 <= i < |ops| ==> WritesPadded(ops[i])
    ensures var (w, z) := After(v, s, ops); Inv(w, z) && Readable(w, z) && LeftKnown(w, z, LeftAfter(v, s, left, ops))
    decreases |ops|
  {
    hide TreeInv, HeapInv, HeaderOk, Abs, Owed, Ready, Next, NextShape, Answer, SpecStep, Refines, LeftKnown,
      PaddedNames, PaddedLeft, Readable, NextLeft, WritesPadded;
    if ops == [] {
      ReadableFromNames(v, s, left);
    } else {
      CallRefines(v, s, ops[0]);
      RefinesFacts(v, s, ops[0]);
      LeftKept(v, s, left, ops[0]);
      var w, z := Next(v, ops[0]), NextShape(v, s, ops[0]);
      StepKeepsPadded(Abs(v, s), ops[0], Abs(w, z), Answer(v, ops[0]));
      StepKeepsPaddedLeft(Abs(v, s), left, ops[0], Abs(w, z), Answer(v, ops[0]));
      RunStaysReadable(w, z, NextLeft(left, ops[0], Answer(v, ops[0]), Abs(w, z)), ops[1..]);
    }
  }

  /** The names on every stack that is on the tree lead from the root to its clusters. */
  ghost predicate AllResolve(v: Volume, s: Shape)
    requires |v.raw| == CLUSTER_MAP_SIZE
  {
    forall p, n {:trigger Upto(p, n)} :: PathOk(v, s, p) && 0 < n <= |p.clusters| ==>
      DescendAll(v, ROOT_PATH, Parts(p.names[1..n])) == Standing(Upto(p, n))
  }

  lemma ReadableResolves(v: Volume, s: Shape)
    requires Inv(v, s) && Readable(v, s)
    ensures AllResolve(v, s)
  {
    hide TreeInv, HeapInv, HeaderOk, Readable, DescendAll, StepOk;
    forall p, n {:trigger Upto(p, n)} | PathOk(v, s, p) && 0 < n <= |p.clusters|
      ensures DescendAll(v, ROOT_PATH, Parts(p.names[1..n])) == Standing(Upto(p, n))
    {
      StackResolves(v, s, p, n);
    }
  }

  /** After a run from a formatted disk by callers who look at the names alone and write
      padded ones: every stack on the tree resolves from the root, whatever folders were
      deleted, `cd` may be given any component that no name left over reads as, and `find`
      may look for the name that all names left over are, if they are one. */
  lemma ShellFromFormat(v: Volume, stack: Entry, ops: seq<Op>)
    requires v.Shaped() && forall c :: 2 < c < |v.fat| ==> v.fat[c] == EMPTY_ENTRY
    requires EachPolite(Formatted(v, stack), RootShape(), {}, ops)
    requires forall i :: 0 <= i < |ops| ==> WritesPadded(ops[i])
    ensures AllOwed(Formatted(v, stack), RootShape(), ops)
    ensures var (w, z) := After(Formatted(v, stack), RootShape(), ops);
            var left := LeftAfter(Formatted(v, stack), RootShape(), {}, ops);
            && Inv(w, z) && AllResolve(w, z)
            && (forall part :: NoneReads(left, part) ==> ClearOf(w, z, part))
            && (forall name :: (forall x :: x in left ==> x.1 == name) ==> LeftOnly(w, z, name))
  {
    hide TreeInv, HeapInv, HeaderOk, Abs, EachPolite, AllOwed, After, LeftAfter, Formatted, LeftKnown, PaddedNames,
      Readable, ClearOf, LeftOnly, NoneReads, AllResolve, Tidy, WritesPadded;
    var f := Formatted(v, stack);
    FormatTidy(v, stack);
    PoliteSuffices(f, RootShape(), {}, ops);
    RunStaysReadable(f, RootShape(), {}, ops);
    var (w, z) := After(f, RootShape(), ops);
    var left := LeftAfter(f, RootShape(), {}, ops);
    ReadableResolves(w, z);
    forall part | NoneReads(left, part) ensures ClearOf(w, z, part) { ClearFromLeft(w, z, left, part); }
    forall name | forall x :: x in left ==> x.1 == name ensures LeftOnly(w, z, name) { OnlyFromLeft(w, z, left, name); }
  }

  /** Nothing is left over for `cd` or `find` to come across. */
  ghost predicate FreeToWalk(v: Volume, s: Shape) {
    (forall part :: ClearOf(v, s, part)) && forall name :: LeftOnly(v, s, name)
  }

  lemma TidyIsFree(v: Volume, s: Shape)
    requires Tidy(v, s)
    ensures FreeToWalk(v, s)
  {
    hide Tidy, ClearOf, LeftOnly;
    forall part ensures ClearOf(v, s, part) { TidyIsClear(v, s, part); }
    forall name ensures LeftOnly(v, s, name) { TidyHasNone(v, s, name); }
  }

  /** The call writes no unpadded name and deletes no folder. */
  predicate KeepsTidy(op: Op) {
    WritesPadded(op) && (op.Delete? ==> op.q.ext != NO_EXT)
  }

  /** Runs that write padded names and delete no folder keep a volume tidy, a freshly
      formatted one to begin with, so that `cd` may go to, and `find` look for, any name. */
  lemma {:induction false} RunStaysTidy(v: Volume, s: Shape, ops: seq<Op>)
    requires LeftKnown(v, s, {}) && PaddedNames(Abs(v, s)) && Inv(v, s) && AllOwed(v, s, ops)
    requires forall i :: 0 <= i < |ops| ==> KeepsTidy(ops[i])
    ensures var (w, z) := After(v, s, ops); Inv(w, z) && Tidy(w, z) && FreeToWalk(w, z)
    decreases |ops|
  {
    hide TreeInv, HeapInv, HeaderOk, Abs, Owed, Ready, Next, NextShape, Answer, SpecStep, Refines, LeftKnown,
      PaddedNames, Tidy, FreeToWalk;
    if ops == [] {
      TidyFromNames(v, s);
      TidyIsFree(v, s);
    } else {
      CallRefines(v, s, ops[0]);
      RefinesFacts(v, s, ops[0]);
      LeftKept(v, s, {}, ops[0]);
      var w, z := Next(v, ops[0]), NextShape(v, s, ops[0]);
      assert NextLeft({}, ops[0], Answer(v, ops[0]), Abs(w, z)) == {};
      StepKeepsPadded(Abs(v, s), ops[0], Abs(w, z), Answer(v, ops[0]));
      RunStaysTidy(w, z, ops[1..]);
    }
  }

  lemma FormatTidy(v: Volume, stack: Entry)
    requires v.Shaped() && forall c :: 2 < c < |v.fat| ==> v.fat[c] == EMPTY_ENTRY
    ensures var f := Formatted(v, stack);
            && Inv(f, RootShape()) && LeftKnown(f, RootShape(), {}) && PaddedNames(Abs(f, RootShape()))
            && Tidy(f, RootShape())
  {
    hide TreeInv, HeapInv, HeaderOk, Abs, Formatted, LeftKnown, Tidy;
    FormatInv(v, stack);
    FormatKnown(v, stack);
    RootNamePadded();
    TidyFromNames(Formatted(v, stack), RootShape());
  }

  lemma RootNamePadded()
    ensures IsPadded(ROOT_NAME)
  {
    assert NameLength(ROOT_NAME, 4) == 4;
    assert NameLength(ROOT_NAME, 3) == 4;
    assert NameLength(ROOT_NAME, 2) == 4;
    assert NameLength(ROOT_NAME, 1) == 4;
  }
}
