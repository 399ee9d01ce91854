/** `delete` picks its branch by the caller's extension, not by the entry, and takes the
    first entry of the name, be it dead or the directory's own. Here is exactly when it
    leaves the volume in order. */
module WrongBranch {
  import opened Layout
  import opened Volume
  import opened Heap
  import opened Tree
  import opened Consistency
  import opened Reached
  import opened ChainWalk

  /** A live entry of a live directory, other than entry 0. */
  ghost predicate EntryIn(v: Volume, s: Shape, d: nat, i: nat)
    requires |v.raw| == CLUSTER_MAP_SIZE
  {
    d in s.depth && d < CLUSTER_MAP_SIZE && 1 <= i < |v.Dir(d)| && Live(v.Dir(d)[i])
  }

  // -- A file deleted as a folder --

  /** Only the first cell is freed and the entry is dead; the chain's second cell, if it
      has one, is a stray. */
  lemma FileAsFolderStrays(v: Volume, s: Shape, d: nat, i: nat, z: Shape)
    requires Inv(v, s) && EntryIn(v, s, d, i) && v.Dir(d)[i].filesize > CLUSTER_SIZE
    ensures ClusterNo(v.Dir(d)[i]) < CLUSTER_MAP_SIZE && |v.Dir(d)| == TABLE_SIZE
    ensures !Inv(FolderDeleted(v, d, i), z)
  {
    hide TableOf, TableBytes, CellBytes, TreeInv, HeapInv, HeaderOk, ClusterNo, NothingNew, Unpointed, Unnamed,
      FolderDeleted;
    DirAt(v, s, d);
    LiveEntryAt(v, s, d, i);
    var c := ClusterNo(v.Dir(d)[i]);
    var x := SecondCell(v, s, c);
    FolderDeletedShaped(v, d, i);
    FolderBranchLeaves(v, s, d, i);
    SecondUnpointed(v, s, d, i, c, x);
    SecondUnnamed(v, s, d, i, c, x);
    Stray(v, s, FolderDeleted(v, d, i), x, z);
  }

  lemma SecondCell(v: Volume, s: Shape, c: nat) returns (x: nat)
    requires Inv(v, s) && c in s.chains && |s.chains[c]| > 1
    ensures 2 <= c < CLUSTER_MAP_SIZE && v.fat[c] == x && 2 < x < CLUSTER_MAP_SIZE && x != c && v.fat[x] != EMPTY_ENTRY
    ensures x in s.owner && s.owner[x] == c && x !in s.chains
  {
    hide TableOf, TreeInv, HeaderOk;
    var cells := s.chains[c];
    x := cells[1];
    ChainAt(v.fat, s.chains, s.owner, c);
    assert LinkOk(v.fat, cells, 0) && LinkOk(v.fat, cells, 1);
    assert |cells| > 2 ==> LinkOk(v.fat, cells, 2);
    if x in s.chains { HeadInUse(v.fat, s.chains, s.owner, x); }
  }

  lemma FolderBranchLeaves(v: Volume, s: Shape, d: nat, i: nat)
    requires Inv(v, s) && EntryIn(v, s, d, i) && ClusterNo(v.Dir(d)[i]) < CLUSTER_MAP_SIZE && |v.Dir(d)| == TABLE_SIZE
    ensures var w := FolderDeleted(v, d, i);
            && w.Shaped() && NothingNew(v, s, w) && w.fat == v.fat[ClusterNo(v.Dir(d)[i]) := EMPTY_ENTRY]
  {
    hide TableOf, TableBytes, CellBytes, TreeInv, HeapInv, HeaderOk, ClusterNo, NoNewEntry;
    FolderDeletedShaped(v, d, i);
    var w, dead := FolderDeleted(v, d, i), v.Dir(d)[i].(userAttribute := 0);
    TableRoundTrip(v.Dir(d)[i := dead]);
    SlotDropped(v.Dir(d), i, dead);
    forall p | p in s.depth && p < CLUSTER_MAP_SIZE ensures NoNewEntry(v.Dir(p), w.Dir(p)) {
      DirAt(v, s, p);
      SameTable(v.Dir(p));
    }
  }

  lemma SlotDropped(t: Table, i: nat, e: Entry)
    requires i < |t| && !Live(e)
    ensures NoNewEntry(t, t[i := e])
  {
  }

  lemma SecondUnpointed(v: Volume, s: Shape, d: nat, i: nat, c: nat, x: nat)
    requires Inv(v, s) && 2 <= c < CLUSTER_MAP_SIZE && v.fat[c] == x && 2 < x < CLUSTER_MAP_SIZE
    ensures Unpointed(v.fat[c := EMPTY_ENTRY], x)
  {
    hide TableOf, TreeInv, HeapInv, HeaderOk;
    var fat := v.fat[c := EMPTY_ENTRY];
    forall y | 2 <= y < CLUSTER_MAP_SIZE ensures fat[y] != x {
      if v.fat[y] == x { OnePredecessor(v.fat, s.chains, s.owner, c, y); }
    }
  }

  lemma SecondUnnamed(v: Volume, s: Shape, d: nat, i: nat, c: nat, x: nat)
    requires Inv(v, s) && EntryIn(v, s, d, i) && ClusterNo(v.Dir(d)[i]) == c < CLUSTER_MAP_SIZE
    requires |v.Dir(d)| == TABLE_SIZE
    requires x !in s.chains
    ensures FolderDeleted(v, d, i).Shaped() && Unnamed(s, FolderDeleted(v, d, i), x)
  {
    hide TableOf, TreeInv, HeapInv, HeaderOk, ClusterNo, FolderDeleted, NothingNew, Walkable, Chain, Clusters;
    FolderBranchLeaves(v, s, d, i);
    var w := FolderDeleted(v, d, i);
    forall p | p in s.depth && p < CLUSTER_MAP_SIZE ensures UnnamedIn(w.Dir(p), x) {
      TableKept(v, s, w, p);
      forall j | 1 <= j < |w.Dir(p)| && Live(w.Dir(p)[j])
        ensures ClusterNo(w.Dir(p)[j]) != x
      {
        LiveEntryAt(v, s, p, j);
      }
    }
  }

  // -- A folder deleted as a file --

  /** Its table is wiped: what it held is a stray. */
  lemma FolderAsFileStrays(v: Volume, s: Shape, d: nat, i: nat, z: Shape)
    requires Inv(v, s) && EntryIn(v, s, d, i) && v.Dir(d)[i].filesize == 0
    requires ClusterNo(v.Dir(d)[i]) < CLUSTER_MAP_SIZE && HasEntries(v.Dir(ClusterNo(v.Dir(d)[i])))
    ensures |v.Dir(d)| == TABLE_SIZE && Walkable(v.fat, ClusterNo(v.Dir(d)[i]))
    ensures !Inv(FileDeleted(v, d, i), z)
  {
    hide TableOf, TableBytes, CellBytes, TreeInv, HeapInv, HeaderOk, ClusterNo, NothingNew, Unpointed, Unnamed,
      FileDeleted, Walkable, Chain, Clusters;
    DirAt(v, s, d);
    LiveEntryAt(v, s, d, i);
    var c := ClusterNo(v.Dir(d)[i]);
    DirAt(v, s, c);
    var k :| 1 <= k < |v.Dir(c)| && Live(v.Dir(c)[k]);
    LiveEntryAt(v, s, c, k);
    var x := ClusterNo(v.Dir(c)[k]);
    HeadInUse(v.fat, s.chains, s.owner, x);
    FileBranchLeaves(v, s, d, i, c);
    ChildUnpointed(v, s, c, x);
    ChildUnnamed(v, s, d, i, c, x);
    Stray(v, s, FileDeleted(v, d, i), x, z);
  }

  lemma {:induction false} ZerosDead(b: seq<byte>)
    requires forall k :: 0 <= k < |b| ==> b[k] == 0
    ensures forall j :: 0 <= j < |TableOf(b)| ==> !Live(TableOf(b)[j])
  {
    if |b| >= 32 {
      ZerosDead(b[32..]);
    }
  }

  lemma FileBranchLeaves(v: Volume, s: Shape, d: nat, i: nat, c: nat)
    requires Inv(v, s) && EntryIn(v, s, d, i) && v.Dir(d)[i].filesize == 0 && ClusterNo(v.Dir(d)[i]) == c
    requires |v.Dir(d)| == TABLE_SIZE && c < CLUSTER_MAP_SIZE && Walkable(v.fat, c)
    ensures c != d && 2 < c
    ensures var w := FileDeleted(v, d, i);
            && w.Shaped() && NothingNew(v, s, w) && w.fat == v.fat[c := EMPTY_ENTRY]
  {
    hide TableOf, TableBytes, CellBytes, TreeInv, HeapInv, HeaderOk, ClusterNo, NoNewEntry, FileDeleted, Walkable,
      Chain, Clusters, ZERO_ENTRY, Zeros;
    DirAt(v, s, d);
    LiveEntryAt(v, s, d, i);
    DirAt(v, s, c);
    NotItsOwnChild(v, s, d, i, c);
    ChainApart(v, s, c);
    FileDeletedRaw(v, d, i, [c]);
    var w := FileDeleted(v, d, i);
    assert w.fat == v.fat[c := EMPTY_ENTRY];
    TableRoundTrip(v.Dir(d)[i := ZERO_ENTRY]);
    SlotDropped(v.Dir(d), i, ZERO_ENTRY) by { ZeroIsDead(); }
    forall p | p in s.depth && p < CLUSTER_MAP_SIZE ensures NoNewEntry(v.Dir(p), w.Dir(p)) {
      DirAt(v, s, p);
      SameTable(v.Dir(p));
      if p == c { AllZero(v.Dir(c)); }
    }
  }

  lemma ZeroIsDead()
    ensures !Live(ZERO_ENTRY)
  {
  }

  lemma AllZero(t: Table)
    requires |t| == TABLE_SIZE
    ensures |TableOf(Zeros())| == TABLE_SIZE && NoNewEntry(t, TableOf(Zeros()))
  {
    ZerosDead(Zeros());
  }

  lemma NotItsOwnChild(v: Volume, s: Shape, d: nat, i: nat, c: nat)
    requires Inv(v, s) && EntryIn(v, s, d, i) && ClusterNo(v.Dir(d)[i]) == c && c in s.depth
    ensures c != d
  {
    hide TableOf, TreeInv, HeapInv, HeaderOk, ClusterNo, Walkable, Chain, Clusters, NamesOk;
    LiveEntryAt(v, s, d, i);
    var ts := TablesOf(v.raw, s.depth.Keys);
    DirAt(v, s, d);
    DirAt(v, s, c);
    At(ts, s, c);
  }

  lemma ChildUnpointed(v: Volume, s: Shape, c: nat, x: nat)
    requires Inv(v, s) && c < CLUSTER_MAP_SIZE && x in s.chains && x != EMPTY_ENTRY
    ensures Unpointed(v.fat[c := EMPTY_ENTRY], x)
  {
    hide TableOf, TreeInv, HeapInv, HeaderOk;
    var fat := v.fat[c := EMPTY_ENTRY];
    forall y | 2 <= y < CLUSTER_MAP_SIZE ensures fat[y] != x {
      HeadUnpointed(v.fat, s.chains, s.owner, x, y);
    }
  }

  lemma ChildUnnamed(v: Volume, s: Shape, d: nat, i: nat, c: nat, x: nat)
    requires Inv(v, s) && EntryIn(v, s, d, i) && v.Dir(d)[i].filesize == 0 && ClusterNo(v.Dir(d)[i]) == c
    requires |v.Dir(d)| == TABLE_SIZE && c < CLUSTER_MAP_SIZE && Walkable(v.fat, c)
    requires x in s.home && s.home[x].0 == c
    ensures FileDeleted(v, d, i).Shaped() && Unnamed(s, FileDeleted(v, d, i), x)
  {
    hide TableOf, TreeInv, HeapInv, HeaderOk, ClusterNo, FileDeleted, NothingNew, Walkable, Chain, Clusters;
    FileBranchLeaves(v, s, d, i, c);
    var w := FileDeleted(v, d, i);
    forall p | p in s.depth && p < CLUSTER_MAP_SIZE && w.fat[p] == END_OF_FILE ensures UnnamedIn(w.Dir(p), x) {
      TableKept(v, s, w, p);
      forall j | 1 <= j < |w.Dir(p)| && Live(w.Dir(p)[j])
        ensures ClusterNo(w.Dir(p)[j]) != x
      {
        LiveEntryAt(v, s, p, j);
      }
    }
  }

  // -- A live entry other than entry 0 --

  /** Deleting such an entry leaves the volume in order exactly when the call is refused,
      or the extension suits the entry, or the file fits one cluster, or the folder is
      empty. */
  lemma LiveDeleteIff(v: Volume, s: Shape, q: Request, i: nat)
    requires v.Shaped() && q.name != NO_NAME && q.parent < CLUSTER_MAP_SIZE
    requires i == FirstNamed(v.Dir(q.parent), q.name) && EntryIn(v, s, q.parent, i) && Inv(v, s)
    ensures DeleteReady(v, q) && ClusterNo(v.Dir(q.parent)[i]) < CLUSTER_MAP_SIZE
    ensures Orderly(Deleted(v, q).vol) <==> Deleted(v, q).code != 0 || Suits(v, q, i)
  {
    hide TableOf, TreeInv, HeapInv, HeaderOk, ClusterNo, FileDeleted, FolderDeleted, Walkable, Chain, Clusters,
      FirstNamed, HasEntries;
    var d, e := q.parent, v.Dir(q.parent)[i];
    LiveEntryAt(v, s, d, i);
    DirAt(v, s, d);
    if Deleted(v, q).code != 0 {
      assert Deleted(v, q).vol == v;
    } else if q.ext == NO_EXT {
      if e.filesize <= CLUSTER_SIZE {
        FolderDeleteKeepsInv(v, s, d, i);
      } else {
        forall z ensures !Inv(FolderDeleted(v, d, i), z) { FileAsFolderStrays(v, s, d, i, z); }
      }
    } else if e.filesize > 0 || !HasEntries(v.Dir(ClusterNo(e))) {
      FileDeleteKeepsInv(v, s, d, i);
    } else {
      forall z ensures !Inv(FileDeleted(v, d, i), z) { FolderAsFileStrays(v, s, d, i, z); }
    }
  }

  /** The extension suits the live entry, or it does not matter. */
  ghost predicate Suits(v: Volume, q: Request, i: nat)
    requires v.Shaped() && q.parent < CLUSTER_MAP_SIZE && i < |v.Dir(q.parent)|
    requires ClusterNo(v.Dir(q.parent)[i]) < CLUSTER_MAP_SIZE
  {
    var e := v.Dir(q.parent)[i];
    if q.ext == NO_EXT then e.filesize <= CLUSTER_SIZE else e.filesize > 0 || !HasEntries(v.Dir(ClusterNo(e)))
  }

  // -- A name left over --

  /** What the folder branch does to a slot that was dead: the cell is freed, and no live
      entry changes. */
  lemma DeadAsFolder(v: Volume, s: Shape, d: nat, i: nat)
    requires v.Shaped() && d in s.depth && d < CLUSTER_MAP_SIZE && i < TABLE_SIZE && !Live(v.Dir(d)[i])
    requires ClusterNo(v.Dir(d)[i]) < CLUSTER_MAP_SIZE && Inv(v, s)
    ensures var w, dead := FolderDeleted(v, d, i), v.Dir(d)[i].(userAttribute := 0);
            && w.Shaped() && w.fat == v.fat[ClusterNo(v.Dir(d)[i]) := EMPTY_ENTRY]
            && w.raw[FAT_CLUSTER_NUMBER] == CellBytes(w.fat)
            && w.raw[d] == TableBytes(v.Dir(d)[i := dead]) && w.Dir(d) == v.Dir(d)[i := dead]
            && forall x :: 0 <= x < CLUSTER_MAP_SIZE && x != d && x != FAT_CLUSTER_NUMBER ==> w.raw[x] == v.raw[x]
  {
    hide TableOf, TableBytes, CellBytes, TreeInv, HeapInv, HeaderOk, ClusterNo;
    DirAt(v, s, d);
    FolderDeletedShaped(v, d, i);
    TableRoundTrip(v.Dir(d)[i := v.Dir(d)[i].(userAttribute := 0)]);
  }

  /** Slots that were dead may change: the live entries are still there. */
  lemma DeadSlotLoses(t: Table, i: nat, e: Entry)
    requires i < |t| && !Live(t[i])
    ensures NoNewEntry(t[i := e], t)
  {
  }

  lemma DeadAsFolderBreaks(v: Volume, s: Shape, d: nat, i: nat, z: Shape)
    requires v.Shaped() && d in s.depth && d < CLUSTER_MAP_SIZE && i < TABLE_SIZE && !Live(v.Dir(d)[i])
    requires ClusterNo(v.Dir(d)[i]) < CLUSTER_MAP_SIZE && v.fat[ClusterNo(v.Dir(d)[i])] != EMPTY_ENTRY && Inv(v, s)
    ensures !Inv(FolderDeleted(v, d, i), z)
  {
    hide TableOf, TableBytes, CellBytes, TreeInv, HeapInv, HeaderOk, ClusterNo, FolderDeleted, NoNewEntry;
    var w, c := FolderDeleted(v, d, i), ClusterNo(v.Dir(d)[i]);
    DeadAsFolder(v, s, d, i);
    DeadSlotLoses(v.Dir(d), i, v.Dir(d)[i].(userAttribute := 0));
    forall x | x in s.depth && x < CLUSTER_MAP_SIZE ensures NoNewEntry(w.Dir(x), v.Dir(x)) {
      DirAt(v, s, x);
      SameTable(v.Dir(x));
    }
    FreedInUse(v, s, w, c, z);
  }

  /** When its cell is free already, only the dead slot changes. */
  lemma DeadAsFolderKeeps(v: Volume, s: Shape, d: nat, i: nat)
    requires v.Shaped() && d in s.depth && d < CLUSTER_MAP_SIZE && 1 <= i < TABLE_SIZE && !Live(v.Dir(d)[i])
    requires ClusterNo(v.Dir(d)[i]) < CLUSTER_MAP_SIZE && v.fat[ClusterNo(v.Dir(d)[i])] == EMPTY_ENTRY && Inv(v, s)
    ensures Inv(FolderDeleted(v, d, i), s)
  {
    hide TableOf, TableBytes, CellBytes, CellsOf, Signature, TreeInv, HeapInv, HeaderOk, ClusterNo, FolderDeleted,
      TablesOf;
    var w, dead := FolderDeleted(v, d, i), v.Dir(d)[i].(userAttribute := 0);
    var ts := TablesOf(v.raw, s.depth.Keys);
    DirAt(v, s, d);
    DeadAsFolder(v, s, d, i);
    assert w.fat == v.fat;
    HeaderKept(v, w);
    forall x | x in s.depth && x < |v.raw| && x != d ensures w.raw[x] == v.raw[x] { DirAt(v, s, x); }
    TablesUpdated(v.raw, w.raw, s.depth.Keys, d, v.Dir(d)[i := dead]);
    DeadSlotKeepsTree(ts, s, v.fat, d, i, dead);
  }

  lemma DeadSlotKeepsTree(ts: Tables, s: Shape, fat: seq<uint32>, d: nat, i: nat, e: Entry)
    requires d in ts && 1 <= i < |ts[d]| && !Live(ts[d][i]) && !Live(e) && e.name == ts[d][i].name
    requires TreeInv(ts, s) && HeapInv(fat, s.chains, s.owner)
    ensures TreeInv(ts[d := ts[d][i := e]], s)
  {
    hide TreeInv, HeapInv, ClusterNo, NamesOk, Clusters;
    At(ts, s, d);
    DeadNames(ts[d], i, e);
    var c := CLUSTER_MAP_SIZE;
    NoSuchCell(ts, s, fat, c);
    EditKeepsTree(ts, s, ts[d := ts[d][i := e]], s, d, i, e, c);
  }

  lemma DeadNames(t: Table, i: nat, e: Entry)
    requires NamesOk(t) && i < |t| && !Live(e) && e.name == t[i].name
    ensures NamesOk(t[i := e])
  {
    var t' := t[i := e];
    forall m | 0 <= m < |t'| && Live(t'[m]) ensures NameOk(t', m) {
      if m != i { assert NameOk(t, m); }
    }
  }

  lemma NoSuchCell(ts: Tables, s: Shape, fat: seq<uint32>, c: nat)
    requires TreeInv(ts, s) && HeapInv(fat, s.chains, s.owner) && c >= CLUSTER_MAP_SIZE
    ensures c !in ts && c !in s.chains && c !in s.home
  {
    hide TreeInv, HeapInv;
    if c in s.home { HomeAt(ts, s, c); }
    if c in ts { At(ts, s, c); }
    if c in s.chains { HeadInUse(fat, s.chains, s.owner, c); }
  }

  /** Walking from a cell in use stays on its chain. */
  lemma {:induction false} WalkOwned(fat: seq<uint32>, chains: Chains, owner: Owners, c: nat)
    requires HeapInv(fat, chains, owner) && 2 <= c < CLUSTER_MAP_SIZE && Walkable(fat, c)
    ensures forall x :: x in Chain(fat, c) ==>
              2 <= x < CLUSTER_MAP_SIZE && x in owner && c in owner && owner[x] == owner[c]
    decreases CLUSTER_MAP_SIZE - c
  {
    hide HeapInv, IsChain;
    var k := PlaceOf(fat, chains, owner, c);
    if fat[c] != END_OF_FILE {
      WalkOwned(fat, chains, owner, fat[c]);
    }
  }

  /** A directory is on a walk only when the walk starts there. */
  lemma WalkMissesDir(v: Volume, s: Shape, c: nat, x: nat)
    requires 2 <= c < CLUSTER_MAP_SIZE && x in s.depth && x != c && Walkable(v.fat, c) && Inv(v, s)
    ensures x !in Chain(v.fat, c)
  {
    hide TableOf, TreeInv, HeaderOk, Walkable, Chain;
    DirAt(v, s, x);
    WalkOwned(v.fat, s.chains, s.owner, c);
    if x in Chain(v.fat, c) {
      assert OwnerOk(s.chains, s.owner, c) && OwnerOk(s.chains, s.owner, x);
      HeadInUse(v.fat, s.chains, s.owner, x);
    }
  }

  /** What the file branch does to a slot that was dead. */
  lemma DeadAsFile(v: Volume, d: nat, i: nat)
    requires v.Shaped() && 2 <= d < CLUSTER_MAP_SIZE && i < TABLE_SIZE && Walkable(v.fat, ClusterNo(v.Dir(d)[i]))
    ensures var w, c := FileDeleted(v, d, i), ClusterNo(v.Dir(d)[i]);
            && w.Shaped() && c < CLUSTER_MAP_SIZE && v.fat[c] != EMPTY_ENTRY && w.fat[c] == EMPTY_ENTRY
            && (forall y :: 0 <= y < c ==> w.fat[y] == v.fat[y])
            && w.Dir(d) == v.Dir(d)[i := ZERO_ENTRY]
            && forall x :: 2 <= x < CLUSTER_MAP_SIZE && x != d && x !in Chain(v.fat, c) ==> w.raw[x] == v.raw[x]
  {
    hide TableOf, TableBytes, CellBytes, ClusterNo, ZERO_ENTRY;
    FileDeletedShaped(v, d, i);
    TableRoundTrip(v.Dir(d)[i := ZERO_ENTRY]);
  }

  lemma DeadAsFileBreaks(v: Volume, s: Shape, d: nat, i: nat, z: Shape)
    requires v.Shaped() && d in s.depth && d < CLUSTER_MAP_SIZE && i < TABLE_SIZE && !Live(v.Dir(d)[i])
    requires Walkable(v.fat, ClusterNo(v.Dir(d)[i])) && Inv(v, s)
    ensures !Inv(FileDeleted(v, d, i), z)
  {
    hide TableOf, TreeInv, HeapInv, HeaderOk, ClusterNo, FileDeleted, NoNewEntry, Walkable, Chain, ZERO_ENTRY,
      NothingLost;
    var w, c := FileDeleted(v, d, i), ClusterNo(v.Dir(d)[i]);
    DirAt(v, s, d);
    DeadAsFile(v, d, i);
    if c in s.home && s.home[c].0 in s.depth {
      HeadAbove2(v, s, c);
      var n := s.depth[s.home[c].0];
      DeadSlotLoses(v.Dir(d), i, ZERO_ENTRY);
      forall x | x in s.depth && x < CLUSTER_MAP_SIZE && s.depth[x] <= n ensures NoNewEntry(w.Dir(x), v.Dir(x)) {
        DirAt(v, s, x);
        SameTable(v.Dir(x));
        HigherIsOther(v, s, c, x);
        WalkMissesDir(v, s, c, x);
      }
      assert NothingLost(v, s, w, n) by { LostNothing(v, s, w, n); }
    }
    FreedInUse(v, s, w, c, z);
  }

  lemma LostNothing(v: Volume, s: Shape, w: Volume, n: nat)
    requires |v.raw| == |w.raw| == CLUSTER_MAP_SIZE
    requires forall x :: x in s.depth && x < CLUSTER_MAP_SIZE && s.depth[x] <= n ==> NoNewEntry(w.Dir(x), v.Dir(x))
    ensures NothingLost(v, s, w, n)
  {
    hide TableOf, NoNewEntry;
  }

  lemma HeadAbove2(v: Volume, s: Shape, c: nat)
    requires c in s.home && Inv(v, s)
    ensures 2 < c < CLUSTER_MAP_SIZE
  {
    hide TableOf, TreeInv, HeapInv, HeaderOk;
    HomeAt(TablesOf(v.raw, s.depth.Keys), s, c);
    HeadInUse(v.fat, s.chains, s.owner, c);
  }

  /** A directory as near the root as the one that holds `c` is not `c`. */
  lemma HigherIsOther(v: Volume, s: Shape, c: nat, x: nat)
    requires c in s.home && s.home[c].0 in s.depth && x in s.depth && s.depth[x] <= s.depth[s.home[c].0] && Inv(v, s)
    ensures x != c
  {
    hide TableOf, TreeInv, HeapInv, HeaderOk, NamesOk, ClusterNo;
    if x == c {
      DirAt(v, s, c);
      HeadAbove2(v, s, c);
      At(TablesOf(v.raw, s.depth.Keys), s, c);
    }
  }

  // -- A directory's own name --

  /** With an extension it takes the parent's cluster away. */
  lemma OwnNameBreaks(v: Volume, s: Shape, d: nat, z: Shape)
    requires v.Shaped() && d in s.depth && d < CLUSTER_MAP_SIZE && |v.Dir(d)| == TABLE_SIZE
    requires Walkable(v.fat, ClusterNo(v.Dir(d)[0])) && Inv(v, s)
    ensures !Inv(FileDeleted(v, d, 0), z)
  {
    hide TableOf, TreeInv, HeapInv, HeaderOk, ClusterNo, FileDeleted, NoNewEntry, Walkable, Chain, ZERO_ENTRY,
      Unpointed, Unnamed, NothingNew, Zeros;
    var w, c := FileDeleted(v, d, 0), ClusterNo(v.Dir(d)[0]);
    DirAt(v, s, d);
    ParentOf(v, s, d);
    if d == ROOT_CLUSTER_NUMBER {
      DeadAsFile(v, d, 0);
      if Inv(w, z) { ReservedInUse(w, z, c); }
    } else {
      OwnNameLeaves(v, s, d);
      OwnUnnamed(v, s, d);
      HeadUnpointedAll(v, s, c, d);
      Stray(v, s, w, d, z);
    }
  }

  /** Entry 0 leads to the directory that holds `d`'s entry. */
  lemma ParentOf(v: Volume, s: Shape, d: nat)
    requires v.Shaped() && d in s.depth && d < CLUSTER_MAP_SIZE && |v.Dir(d)| == TABLE_SIZE && Inv(v, s)
    ensures Live(v.Dir(d)[0]) && v.Dir(d)[0].name != NO_NAME && ClusterNo(v.Dir(d)[0]) in s.depth
    ensures d == ROOT_CLUSTER_NUMBER ==> ClusterNo(v.Dir(d)[0]) == d
    ensures d != ROOT_CLUSTER_NUMBER ==>
              && ClusterNo(v.Dir(d)[0]) != d && d in s.chains && d in s.home && s.home[d].0 == ClusterNo(v.Dir(d)[0])
    ensures OneCellChain(v, ClusterNo(v.Dir(d)[0]))
    ensures d != ROOT_CLUSTER_NUMBER ==> HasEntriesAt(v, ClusterNo(v.Dir(d)[0]))
  {
    hide TableOf, TreeInv, HeapInv, HeaderOk, ClusterNo;
    var ts := TablesOf(v.raw, s.depth.Keys);
    DirAt(v, s, d);
    At(ts, s, d);
    DepthKeys(ts, s);
    NameOfEntry0(v.Dir(d));
    if d != ROOT_CLUSTER_NUMBER { HomeAt(ts, s, d); }
    DirAt(v, s, ClusterNo(v.Dir(d)[0]));
  }

  lemma NameOfEntry0(t: Table)
    requires NamesOk(t) && 0 < |t| && Live(t[0])
    ensures t[0].name != NO_NAME
  {
    assert NameOk(t, 0);
  }

  /** A chain of this one cell. */
  ghost predicate OneCellChain(v: Volume, c: nat) {
    && c < |v.fat| == |v.raw| && v.fat[c] == END_OF_FILE && Walkable(v.fat, c) && Chain(v.fat, c) == [c]
    && |v.Dir(c)| == TABLE_SIZE && 2 <= c
  }

  ghost predicate HasEntriesAt(v: Volume, c: nat) {
    c < |v.raw| && HasEntries(v.Dir(c))
  }

  lemma OwnNameLeaves(v: Volume, s: Shape, d: nat)
    requires v.Shaped() && d in s.depth && d < CLUSTER_MAP_SIZE && |v.Dir(d)| == TABLE_SIZE && d != ROOT_CLUSTER_NUMBER
    requires Walkable(v.fat, ClusterNo(v.Dir(d)[0])) && Inv(v, s)
    ensures var w, c := FileDeleted(v, d, 0), ClusterNo(v.Dir(d)[0]);
            && w.Shaped() && c < CLUSTER_MAP_SIZE && w.fat == v.fat[c := EMPTY_ENTRY] && w.raw[c] == Zeros()
            && NothingNew(v, s, w)
            && w.fat[d] == v.fat[d] && 2 < d
  {
    hide TableOf, TableBytes, CellBytes, TreeInv, HeapInv, HeaderOk, ClusterNo, NoNewEntry, Walkable, Chain,
      ZERO_ENTRY, Zeros, HasEntries;
    var w, c := FileDeleted(v, d, 0), ClusterNo(v.Dir(d)[0]);
    DirAt(v, s, d);
    ParentOf(v, s, d);
    FileDeletedShaped(v, d, 0);
    assert w.fat == v.fat[c := EMPTY_ENTRY];
    TableRoundTrip(v.Dir(d)[0 := ZERO_ENTRY]);
    SlotDropped(v.Dir(d), 0, ZERO_ENTRY) by { ZeroIsDead(); }
    forall p | p in s.depth && p < CLUSTER_MAP_SIZE ensures NoNewEntry(v.Dir(p), w.Dir(p)) {
      DirAt(v, s, p);
      SameTable(v.Dir(p));
      if p == c { AllZero(v.Dir(c)); }
    }
  }

  lemma OwnUnnamed(v: Volume, s: Shape, d: nat)
    requires v.Shaped() && d in s.depth && d < CLUSTER_MAP_SIZE && |v.Dir(d)| == TABLE_SIZE && d != ROOT_CLUSTER_NUMBER
    requires Walkable(v.fat, ClusterNo(v.Dir(d)[0])) && Inv(v, s)
    ensures FileDeleted(v, d, 0).Shaped() && Unnamed(s, FileDeleted(v, d, 0), d)
  {
    hide TableOf, TreeInv, HeapInv, HeaderOk, ClusterNo, FileDeleted, NothingNew, Walkable, Chain, Clusters, HasEntries;
    OwnNameLeaves(v, s, d);
    ParentOf(v, s, d);
    var w := FileDeleted(v, d, 0);
    forall p | p in s.depth && p < CLUSTER_MAP_SIZE && w.fat[p] == END_OF_FILE ensures UnnamedIn(w.Dir(p), d) {
      TableKept(v, s, w, p);
      forall j | 1 <= j < |w.Dir(p)| && Live(w.Dir(p)[j])
        ensures ClusterNo(w.Dir(p)[j]) != d
      {
        LiveEntryAt(v, s, p, j);
      }
    }
  }

  lemma HeadUnpointedAll(v: Volume, s: Shape, c: nat, x: nat)
    requires c < CLUSTER_MAP_SIZE && x in s.chains && Inv(v, s)
    ensures Unpointed(v.fat[c := EMPTY_ENTRY], x)
  {
    hide TableOf, TreeInv, HeapInv, HeaderOk;
    HeadInUse(v.fat, s.chains, s.owner, x);
    ChildUnpointed(v, s, c, x);
  }

  /** Called with an extension on a directory's own name, `delete` answers 0, frees and
      wipes the cluster of its parent, and leaves the volume in no order. */
  lemma OwnNameTakesParent(v: Volume, s: Shape, q: Request)
    requires v.Shaped() && q.parent in s.depth && q.parent < CLUSTER_MAP_SIZE && q.parent != ROOT_CLUSTER_NUMBER
    requires |v.Dir(q.parent)| == TABLE_SIZE && q.name == v.Dir(q.parent)[0].name && q.ext != NO_EXT && Inv(v, s)
    ensures DeleteReady(v, q) && Deleted(v, q).code == 0
    ensures var w, c := Deleted(v, q).vol, ClusterNo(v.Dir(q.parent)[0]);
            && w.Shaped() && c in s.depth && c < CLUSTER_MAP_SIZE
            && w.fat[c] == EMPTY_ENTRY && w.raw[c] == Zeros() && !Orderly(w)
  {
    hide TableOf, TreeInv, HeapInv, HeaderOk, ClusterNo, FileDeleted, Walkable, Chain, Zeros, NothingNew, HasEntries;
    ParentOf(v, s, q.parent);
    assert FirstNamed(v.Dir(q.parent), q.name) == 0;
    OwnNameLeaves(v, s, q.parent);
    forall z ensures !Inv(FileDeleted(v, q.parent, 0), z) { OwnNameBreaks(v, s, q.parent, z); }
  }

  // -- What the walk needs --

  /** A walk that starts on a used cell ends, and no other does: cell 0 leads out of the
      map, and a free cell leads to cell 0. */
  lemma {:induction false} WalkableIff(fat: seq<uint32>, chains: Chains, owner: Owners, c: nat)
    requires HeapInv(fat, chains, owner) && fat[0] == CLUSTER_0_VALUE && fat[1] == CLUSTER_1_VALUE
    ensures Walkable(fat, c) <==> 0 < c < CLUSTER_MAP_SIZE && fat[c] != EMPTY_ENTRY
    decreases if c < CLUSTER_MAP_SIZE then CLUSTER_MAP_SIZE - c else 0
  {
    hide HeapInv;
    HeapSize(fat, chains, owner);
    if 2 <= c < CLUSTER_MAP_SIZE && fat[c] != EMPTY_ENTRY && fat[c] != END_OF_FILE {
      CellsPointUp(fat, chains, owner, c);
      UsedPointsAtUsed(fat, chains, owner, c);
      WalkableIff(fat, chains, owner, fat[c]);
    }
  }

  lemma HeapSize(fat: seq<uint32>, chains: Chains, owner: Owners)
    requires HeapInv(fat, chains, owner)
    ensures |fat| == CLUSTER_MAP_SIZE
  {
  }

  /** The cell that a dead entry names is one this call can work on. */
  predicate CellServes(v: Volume, ext: Ext, c: nat)
    requires |v.fat| == CLUSTER_MAP_SIZE
  {
    c < CLUSTER_MAP_SIZE && (ext != NO_EXT ==> c > 0 && v.fat[c] != EMPTY_ENTRY)
  }

  /** `delete` stays within the map exactly when it finds nothing, or a live entry, or a
      dead one whose cell is in the map and, for a call with an extension, in use. */
  lemma DeleteReadyIff(v: Volume, s: Shape, q: Request)
    requires v.Shaped() && q.parent in s.depth && q.name != NO_NAME && Inv(v, s)
    ensures q.parent < CLUSTER_MAP_SIZE && |v.Dir(q.parent)| == TABLE_SIZE
    ensures var t, i := v.Dir(q.parent), FirstNamed(v.Dir(q.parent), q.name);
            DeleteReady(v, q) <==> i == |t| || Live(t[i]) || CellServes(v, q.ext, ClusterNo(t[i]))
  {
    hide TableOf, TreeInv, HeapInv, ClusterNo, FirstNamed, Walkable, Chain, CellBytes, Signature;
    DirAt(v, s, q.parent);
    var t, i := v.Dir(q.parent), FirstNamed(v.Dir(q.parent), q.name);
    if i < |t| {
      WalkableIff(v.fat, s.chains, s.owner, ClusterNo(t[i]));
      if Live(t[i]) {
        if i == 0 { ParentOf(v, s, q.parent); } else { LiveEntryAt(v, s, q.parent, i); }
      }
    }
  }

  /** Where a walk from a free cell goes: to cell 0, which it frees and whose boot
      signature it wipes, so that the next start formats the disk; and out of the map. */
  lemma FreeCellTakesBoot(v: Volume, s: Shape, c: nat, stack: Entry)
    requires v.Shaped() && c < CLUSTER_MAP_SIZE && v.fat[c] == EMPTY_ENTRY && Inv(v, s)
    ensures var one := FreeCell(v, c);
            var two := FreeCell(one, v.fat[c]);
            && one.fat[v.fat[c]] >= CLUSTER_MAP_SIZE && one.fat[v.fat[c]] != END_OF_FILE
            && two.fat[0] == EMPTY_ENTRY && two.raw[0] == Zeros() && Initialized(two, stack) == Formatted(two, stack)
  {
    hide TreeInv, HeapInv, CellBytes, TableOf, Formatted;
    assert Signature()[BLOCK_SIZE - 1] == 'k' as int;
    assert Zeros()[..BLOCK_SIZE][BLOCK_SIZE - 1] == 0;
  }

  // -- Every name --

  /** The entry found may be deleted by this call without harm. */
  ghost predicate Harmless(v: Volume, q: Request, i: nat)
    requires v.Shaped() && q.parent < CLUSTER_MAP_SIZE && i < |v.Dir(q.parent)|
    requires ClusterNo(v.Dir(q.parent)[i]) < CLUSTER_MAP_SIZE
  {
    if Live(v.Dir(q.parent)[i]) then i >= 1 && Suits(v, q, i)
    else q.ext == NO_EXT && v.fat[ClusterNo(v.Dir(q.parent)[i])] == EMPTY_ENTRY
  }

  lemma EntryReachable(v: Volume, q: Request, i: nat)
    requires v.Shaped() && q.name != NO_NAME && q.parent < CLUSTER_MAP_SIZE && DeleteReady(v, q)
    requires i == FirstNamed(v.Dir(q.parent), q.name) < |v.Dir(q.parent)|
    ensures ClusterNo(v.Dir(q.parent)[i]) < CLUSTER_MAP_SIZE
    ensures q.ext != NO_EXT ==> Walkable(v.fat, ClusterNo(v.Dir(q.parent)[i]))
  {
    hide TableOf, ClusterNo, FirstNamed;
  }

  /** Whatever name of a live directory is deleted, the volume is left in order exactly
      when the call is refused, or it is the name of a live entry other than the
      directory's own and the extension suits, or it is left over, the call has no
      extension, and the cell it names is still free. */
  lemma DeleteOrderlyIff(v: Volume, s: Shape, q: Request)
    requires v.Shaped() && q.parent in s.depth && DeleteReady(v, q) && Inv(v, s)
    ensures q.parent < CLUSTER_MAP_SIZE && |v.Dir(q.parent)| == TABLE_SIZE
    ensures q.name != NO_NAME && FirstNamed(v.Dir(q.parent), q.name) < TABLE_SIZE ==>
              ClusterNo(v.Dir(q.parent)[FirstNamed(v.Dir(q.parent), q.name)]) < CLUSTER_MAP_SIZE
    ensures Orderly(Deleted(v, q).vol)
            <==> Deleted(v, q).code != 0 || Harmless(v, q, FirstNamed(v.Dir(q.parent), q.name))
  {
    hide TableOf, TreeInv, HeapInv, HeaderOk, ClusterNo, FileDeleted, FolderDeleted, Walkable, Chain, Clusters,
      FirstNamed, HasEntries, DeleteReady, Suits, Orderly;
    DirAt(v, s, q.parent);
    var d, i := q.parent, FirstNamed(v.Dir(q.parent), q.name);
    if q.name != NO_NAME && i < TABLE_SIZE { EntryReachable(v, q, i); }
    if Deleted(v, q).code != 0 {
      RefusedOrderly(v, s, q);
    } else {
      FoundEntry(v, q);
      if !Live(v.Dir(d)[i]) {
        LeftOverIff(v, s, q, i);
      } else if i >= 1 {
        LiveDeleteIff(v, s, q, i);
      } else {
        OwnNameNever(v, s, q);
      }
    }
  }

  /** The same for every call, also those that leave the map: `delete` stays within the map
      and leaves the volume in order exactly when there is no such entry, or its folder is
      not empty, or it may be deleted without harm. */
  lemma DeleteSafeIff(v: Volume, s: Shape, q: Request)
    requires v.Shaped() && q.parent in s.depth && q.name != NO_NAME && Inv(v, s)
    ensures q.parent < CLUSTER_MAP_SIZE && |v.Dir(q.parent)| == TABLE_SIZE
    ensures DeleteReady(v, q) && Orderly(Deleted(v, q).vol)
            <==> FirstNamed(v.Dir(q.parent), q.name) == TABLE_SIZE || Safe(v, q, FirstNamed(v.Dir(q.parent), q.name))
  {
    hide TableOf, TreeInv, HeapInv, HeaderOk, ClusterNo, FileDeleted, FolderDeleted, Walkable, Chain, Clusters,
      FirstNamed, HasEntries, DeleteReady, Suits, Orderly;
    DirAt(v, s, q.parent);
    DeleteReadyIff(v, s, q);
    if DeleteReady(v, q) {
      DeleteOrderlyIff(v, s, q);
    }
  }

  ghost predicate Safe(v: Volume, q: Request, i: nat)
    requires v.Shaped() && q.parent < CLUSTER_MAP_SIZE && i < |v.Dir(q.parent)|
  {
    var c := ClusterNo(v.Dir(q.parent)[i]);
    c < CLUSTER_MAP_SIZE && (Harmless(v, q, i) || (q.ext == NO_EXT && HasEntries(v.Dir(c))))
  }

  lemma RefusedOrderly(v: Volume, s: Shape, q: Request)
    requires v.Shaped() && DeleteReady(v, q) && Deleted(v, q).code != 0 && Inv(v, s)
    ensures Orderly(Deleted(v, q).vol)
  {
    hide TableOf, TreeInv, HeapInv, HeaderOk, ClusterNo, FileDeleted, FolderDeleted, Walkable, FirstNamed, HasEntries;
  }

  lemma FoundEntry(v: Volume, q: Request)
    requires v.Shaped() && DeleteReady(v, q) && Deleted(v, q).code == 0
    ensures q.name != NO_NAME && q.parent < CLUSTER_MAP_SIZE && FirstNamed(v.Dir(q.parent), q.name) < |v.Dir(q.parent)|
  {
    hide TableOf, ClusterNo, FileDeleted, FolderDeleted, Walkable, FirstNamed, HasEntries;
  }

  lemma LeftOverIff(v: Volume, s: Shape, q: Request, i: nat)
    requires v.Shaped() && q.name != NO_NAME && q.parent in s.depth && q.parent < CLUSTER_MAP_SIZE && DeleteReady(v, q)
    requires i == FirstNamed(v.Dir(q.parent), q.name) < |v.Dir(q.parent)| && !Live(v.Dir(q.parent)[i])
    requires Deleted(v, q).code == 0 && Inv(v, s)
    ensures ClusterNo(v.Dir(q.parent)[i]) < CLUSTER_MAP_SIZE
    ensures Orderly(Deleted(v, q).vol) <==> q.ext == NO_EXT && v.fat[ClusterNo(v.Dir(q.parent)[i])] == EMPTY_ENTRY
  {
    hide TableOf, TreeInv, HeapInv, HeaderOk, ClusterNo, FileDeleted, FolderDeleted, Walkable, Chain, FirstNamed,
      HasEntries;
    var d := q.parent;
    EntryReachable(v, q, i);
    DirAt(v, s, d);
    ParentOf(v, s, d);
    if q.ext != NO_EXT {
      forall z ensures !Inv(FileDeleted(v, d, i), z) { DeadAsFileBreaks(v, s, d, i, z); }
    } else if v.fat[ClusterNo(v.Dir(d)[i])] == EMPTY_ENTRY {
      DeadAsFolderKeeps(v, s, d, i);
    } else {
      forall z ensures !Inv(FolderDeleted(v, d, i), z) { DeadAsFolderBreaks(v, s, d, i, z); }
    }
  }

  /** By its own name a directory is never deleted without harm. */
  lemma OwnNameNever(v: Volume, s: Shape, q: Request)
    requires v.Shaped() && q.name != NO_NAME && q.parent in s.depth && q.parent < CLUSTER_MAP_SIZE && DeleteReady(v, q)
    requires FirstNamed(v.Dir(q.parent), q.name) == 0 < |v.Dir(q.parent)|
    requires Deleted(v, q).code == 0 && Inv(v, s)
    ensures !Orderly(Deleted(v, q).vol)
  {
    hide TableOf, TreeInv, HeapInv, HeaderOk, ClusterNo, FileDeleted, Walkable, Chain, FirstNamed, HasEntries,
      CellBytes, TableBytes;
    var d, w := q.parent, Deleted(v, q).vol;
    EntryReachable(v, q, 0);
    DirAt(v, s, d);
    ParentOf(v, s, d);
    if q.ext != NO_EXT {
      forall z ensures !Inv(FileDeleted(v, d, 0), z) { OwnNameBreaks(v, s, d, z); }
    } else {
      forall z ensures !Inv(w, z) { if Inv(w, z) { ReservedInUse(w, z, d); } }
    }
  }
}
