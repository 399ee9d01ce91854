/** The shape of a volume is determined by its bytes; a volume with a used cell that
    nothing refers to has none. */
module Reached {
  import opened Layout
  import opened Volume
  import opened Heap
  import opened Tree
  import opened Consistency

  /** Some shape fits the volume. */
  ghost predicate Orderly(v: Volume) {
    exists s :: Inv(v, s)
  }

  /** Every live entry of `w` in a directory of `v` was there in `v`. */
  ghost predicate NothingNew(v: Volume, s: Shape, w: Volume)
    requires |v.raw| == |w.raw| == CLUSTER_MAP_SIZE
  {
    forall d :: d in s.depth && d < CLUSTER_MAP_SIZE ==> NoNewEntry(v.Dir(d), w.Dir(d))
  }

  ghost predicate NoNewEntry(t: Table, t': Table) {
    |t'| == |t| && forall j :: 1 <= j < |t'| && Live(t'[j]) ==> t'[j] == t[j]
  }

  lemma SameTable(t: Table)
    ensures NoNewEntry(t, t)
  {
  }

  /** Directories of `w` are directories of `v`, at the same depth, when `w` has no entry
      that `v` has not: both are what is reached from the root. */
  lemma {:induction false} ReachedInBoth(v: Volume, s: Shape, w: Volume, z: Shape, d: nat)
    requires Inv(v, s) && Inv(w, z) && d in z.depth && NothingNew(v, s, w)
    ensures d in s.depth && s.depth[d] == z.depth[d]
    ensures d != ROOT_CLUSTER_NUMBER ==> d in s.home && d in z.home && s.home[d] == z.home[d]
    decreases z.depth[d]
  {
    hide TableOf, TreeInv, HeapInv, HeaderOk, ClusterNo, NamesOk, Clusters, NothingNew;
    var ts, tz := TablesOf(v.raw, s.depth.Keys), TablesOf(w.raw, z.depth.Keys);
    DirAt(w, z, d);
    At(tz, z, d);
    DepthKeys(ts, s);
    if d != ROOT_CLUSTER_NUMBER {
      var (p, j) := z.home[d];
      HomeAt(tz, z, d);
      ReachedInBoth(v, s, w, z, p);
      DirAt(v, s, p);
      DirAt(w, z, p);
      TableKept(v, s, w, p);
      EntryAt(tz, z, p, j);
      EntryAt(ts, s, p, j);
      DirAt(v, s, d);
      At(ts, s, d);
    } else {
      DirAt(v, s, d);
      At(ts, s, d);
    }
  }

  lemma TableKept(v: Volume, s: Shape, w: Volume, d: nat)
    requires |v.raw| == |w.raw| == CLUSTER_MAP_SIZE && NothingNew(v, s, w) && d in s.depth && d < CLUSTER_MAP_SIZE
    ensures NoNewEntry(v.Dir(d), w.Dir(d))
  {
    hide NoNewEntry, TableOf;
  }

  /** Every live entry of a directory of `v` down to depth `n` is still there in `w`. */
  ghost predicate NothingLost(v: Volume, s: Shape, w: Volume, n: nat)
    requires |v.raw| == |w.raw| == CLUSTER_MAP_SIZE
  {
    forall d :: d in s.depth && d < CLUSTER_MAP_SIZE && s.depth[d] <= n ==> NoNewEntry(w.Dir(d), v.Dir(d))
  }

  /** Then those directories of `v` are directories of `w`. */
  lemma {:induction false} StillReached(v: Volume, s: Shape, w: Volume, z: Shape, d: nat, n: nat)
    requires Inv(v, s) && Inv(w, z) && d in s.depth && s.depth[d] <= n && NothingLost(v, s, w, n)
    ensures d in z.depth
    decreases s.depth[d]
  {
    hide TableOf, TreeInv, HeapInv, HeaderOk, ClusterNo, NamesOk, Clusters, NothingLost;
    var ts, tz := TablesOf(v.raw, s.depth.Keys), TablesOf(w.raw, z.depth.Keys);
    At(ts, s, d) by { DirAt(v, s, d); }
    DepthKeys(tz, z);
    if d != ROOT_CLUSTER_NUMBER {
      var (p, j) := s.home[d];
      HomeAt(ts, s, d);
      DirAt(v, s, p);
      EntryAt(ts, s, p, j);
      StillReached(v, s, w, z, p, n);
      DirAt(w, z, p);
      TableStays(v, s, w, p, n);
      EntryAt(tz, z, p, j);
    }
  }

  lemma TableStays(v: Volume, s: Shape, w: Volume, d: nat, n: nat)
    requires |v.raw| == |w.raw| == CLUSTER_MAP_SIZE && NothingLost(v, s, w, n)
    requires d in s.depth && d < CLUSTER_MAP_SIZE && s.depth[d] <= n
    ensures NoNewEntry(w.Dir(d), v.Dir(d))
  {
    hide NoNewEntry, TableOf;
  }

  lemma HeadsAgree(v: Volume, s: Shape, z: Shape, c: nat)
    requires Inv(v, s) && Inv(v, z) && c in z.chains
    ensures c in s.chains && s.chains[c] == z.chains[c]
    ensures c in z.home ==> c in s.home && s.home[c] == z.home[c]
  {
    hide TableOf, TreeInv, HeaderOk, ClusterNo, NamesOk, Clusters, IsChain, Walkable, Chain, TablesOf;
    var ts, tz := TablesOf(v.raw, s.depth.Keys), TablesOf(v.raw, z.depth.Keys);
    RootAndHomes(tz, z);
    if c in z.home {
      HomeAt(tz, z, c);
      DepthKeys(tz, z);
      var (p, j) := z.home[c];
      ReachedInBoth(v, s, v, z, p);
      DirAt(v, s, p);
      DirAt(v, z, p);
      EntryAt(ts, s, p, j);
    } else {
      DepthKeys(ts, s);
      DirAt(v, s, c);
    }
    WalkIsChain(v.fat, c, s.chains[c]);
    WalkIsChain(v.fat, c, z.chains[c]);
  }

  /** A volume in order has one shape: which clusters are directories, which chain each
      file has, which entry names it, all follow from the bytes on disk. */
  lemma ShapeUnique(v: Volume, s: Shape, z: Shape)
    requires Inv(v, s) && Inv(v, z)
    ensures s == z
  {
    hide TreeInv, HeaderOk, TableOf;
    forall d | d in z.depth ensures d in s.depth && s.depth[d] == z.depth[d] { ReachedInBoth(v, s, v, z, d); }
    forall d | d in s.depth ensures d in z.depth { ReachedInBoth(v, z, v, s, d); }
    forall c | c in z.chains ensures c in s.chains && s.chains[c] == z.chains[c] { HeadsAgree(v, s, z, c); }
    forall c | c in s.chains ensures c in z.chains { HeadsAgree(v, z, s, c); }
    forall c | c in z.home ensures c in s.home && s.home[c] == z.home[c] { HomeChain(v, z, c); HeadsAgree(v, s, z, c); }
    forall c | c in s.home ensures c in z.home { HomeChain(v, s, c); HeadsAgree(v, z, s, c); }
    assert s.chains == z.chains;
    OwnersAgree(v.fat, s.chains, s.owner, z.owner);
  }

  lemma HomeChain(v: Volume, s: Shape, c: nat)
    requires Inv(v, s) && c in s.home
    ensures c in s.chains
  {
    hide TreeInv, HeapInv, HeaderOk, TableOf;
    HomeAt(TablesOf(v.raw, s.depth.Keys), s, c);
  }

  lemma OwnersAgree(fat: seq<uint32>, chains: Chains, a: Owners, b: Owners)
    requires HeapInv(fat, chains, a) && HeapInv(fat, chains, b)
    ensures a == b
  {
    forall c | c in a ensures c in b && a[c] == b[c] {
      assert OwnerOk(chains, a, c);
      assert Owned(b, a[c], chains[a[c]]);
    }
    forall c | c in b ensures c in a { assert OwnerOk(chains, b, c); }
  }

  // -- Strays --

  lemma {:induction false} ChainAscends(fat: seq<uint32>, h: nat, cells: seq<nat>, j: nat, k: nat)
    requires |fat| == CLUSTER_MAP_SIZE && IsChain(fat, h, cells) && j < k < |cells|
    ensures cells[j] < cells[k]
    decreases k
  {
    assert LinkOk(fat, cells, k - 1);
    if j < k - 1 { ChainAscends(fat, h, cells, j, k - 1); }
  }

  /** Where a used cell stands in its chain. */
  lemma PlaceOf(fat: seq<uint32>, chains: Chains, owner: Owners, c: nat) returns (k: nat)
    requires HeapInv(fat, chains, owner) && 2 <= c < CLUSTER_MAP_SIZE && fat[c] != EMPTY_ENTRY
    ensures |fat| == CLUSTER_MAP_SIZE && c in owner && owner[c] in chains && IsChain(fat, owner[c], chains[owner[c]])
    ensures k < |chains[owner[c]]| && chains[owner[c]][k] == c && LinkOk(fat, chains[owner[c]], k)
    ensures k > 0 ==> LinkOk(fat, chains[owner[c]], k - 1) && fat[chains[owner[c]][k - 1]] == c
    ensures fat[c] != END_OF_FILE ==>
              && k + 1 < |chains[owner[c]]| && fat[c] == chains[owner[c]][k + 1]
              && fat[c] in owner && owner[fat[c]] == owner[c]
  {
    OwnerAt(fat, chains, owner, c);
    var cells := chains[owner[c]];
    k :| 0 <= k < |cells| && cells[k] == c;
    assert LinkOk(fat, cells, k);
    assert k > 0 ==> LinkOk(fat, cells, k - 1);
    assert k + 1 < |cells| ==> LinkOk(fat, cells, k + 1);
  }

  /** No two cells point at the same one. */
  lemma OnePredecessor(fat: seq<uint32>, chains: Chains, owner: Owners, x: nat, y: nat)
    requires HeapInv(fat, chains, owner) && 2 <= x < CLUSTER_MAP_SIZE && 2 <= y < CLUSTER_MAP_SIZE
    requires fat[x] == fat[y] && fat[x] != EMPTY_ENTRY && fat[x] != END_OF_FILE
    ensures x == y
  {
    hide HeapInv, IsChain, LinkOk;
    var j := PlaceOf(fat, chains, owner, x);
    var k := PlaceOf(fat, chains, owner, y);
    var h := owner[x];
    if j < k { ChainAscends(fat, h, chains[h], j + 1, k + 1); }
    if k < j { ChainAscends(fat, h, chains[h], k + 1, j + 1); }
  }

  /** Nothing points at the first cell of a chain. */
  lemma HeadUnpointed(fat: seq<uint32>, chains: Chains, owner: Owners, h: nat, y: nat)
    requires HeapInv(fat, chains, owner) && h in chains && 2 <= y < CLUSTER_MAP_SIZE
    ensures fat[y] != h
  {
    hide IsChain, LinkOk;
    HeadInUse(fat, chains, owner, h);
    if fat[y] == h {
      var k := PlaceOf(fat, chains, owner, y);
      ChainAt(fat, chains, owner, h);
      HeadFirst(fat, chains, owner, h);
      ChainAscends(fat, h, chains[h], 0, k + 1);
    }
  }

  lemma HeadFirst(fat: seq<uint32>, chains: Chains, owner: Owners, h: nat)
    requires HeapInv(fat, chains, owner) && h in chains
    ensures chains[h] != [] && chains[h][0] == h
  {
    ChainAt(fat, chains, owner, h);
  }

  /** A used cell that nothing points at starts a chain. */
  lemma UnpointedIsHead(fat: seq<uint32>, chains: Chains, owner: Owners, x: nat)
    requires HeapInv(fat, chains, owner) && 2 <= x < CLUSTER_MAP_SIZE && fat[x] != EMPTY_ENTRY
    requires Unpointed(fat, x)
    ensures x in chains
  {
    hide HeapInv, IsChain;
    var k := PlaceOf(fat, chains, owner, x);
    HeadFirst(fat, chains, owner, owner[x]);
  }

  ghost predicate Unpointed(fat: seq<uint32>, x: nat) {
    forall y :: 2 <= y < |fat| ==> fat[y] != x
  }

  /** No live entry of a directory that is still a whole cluster refers to `x`. */
  ghost predicate Unnamed(s: Shape, w: Volume, x: nat)
    requires |w.raw| == |w.fat| == CLUSTER_MAP_SIZE
  {
    forall p :: p in s.depth && p < CLUSTER_MAP_SIZE && w.fat[p] == END_OF_FILE ==> UnnamedIn(w.Dir(p), x)
  }

  ghost predicate UnnamedIn(t: Table, x: nat) {
    forall j :: 1 <= j < |t| && Live(t[j]) ==> ClusterNo(t[j]) != x
  }

  /** A volume without entries new to `v` and with a used cell that nothing refers to is
      in no order: no shape fits it. */
  lemma Stray(v: Volume, s: Shape, w: Volume, x: nat, z: Shape)
    requires Inv(v, s) && w.Shaped() && NothingNew(v, s, w)
    requires 2 < x < CLUSTER_MAP_SIZE && w.fat[x] != EMPTY_ENTRY && Unpointed(w.fat, x) && Unnamed(s, w, x)
    ensures !Inv(w, z)
  {
    hide TableOf, TreeInv, HeaderOk, HeapInv, ClusterNo, NamesOk, Clusters, TablesOf, Unpointed, NothingNew;
    if Inv(w, z) {
      UnpointedIsHead(w.fat, z.chains, z.owner, x);
      var tz := TablesOf(w.raw, z.depth.Keys);
      RootAndHomes(tz, z);
      HomeAt(tz, z, x);
      DepthKeys(tz, z);
      ReachedInBoth(v, s, w, z, z.home[x].0);
      DirAt(w, z, z.home[x].0);
    }
  }

  // -- Cells freed in use --

  lemma UsedPointsAtUsed(fat: seq<uint32>, chains: Chains, owner: Owners, c: nat)
    requires HeapInv(fat, chains, owner) && 2 <= c < CLUSTER_MAP_SIZE && fat[c] != END_OF_FILE && fat[c] != EMPTY_ENTRY
    ensures fat[c] < CLUSTER_MAP_SIZE && fat[fat[c]] != EMPTY_ENTRY
  {
    hide IsChain;
    var k := PlaceOf(fat, chains, owner, c);
    assert OwnerOk(chains, owner, fat[c]);
  }

  /** In a volume in order cells 0 to 2 are in use. */
  lemma ReservedInUse(w: Volume, z: Shape, c: nat)
    requires Inv(w, z) && c <= ROOT_CLUSTER_NUMBER
    ensures w.fat[c] != EMPTY_ENTRY
  {
    hide TreeInv, HeapInv, TableOf, CellsOf, Signature;
  }

  /** What refers to the cell in `v` is still there in `w`: the cells before it, and the
      directories down to the one that holds its entry, if it starts a chain. */
  ghost predicate StillReferred(v: Volume, s: Shape, w: Volume, c: nat)
    requires v.Shaped() && w.Shaped() && c < CLUSTER_MAP_SIZE
  {
    && (forall y :: 2 <= y < c ==> w.fat[y] == v.fat[y])
    && (c in s.home && s.home[c].0 in s.depth ==> NothingLost(v, s, w, s.depth[s.home[c].0]))
  }

  /** Freeing a cell that is still referred to leaves the volume in no order. */
  lemma FreedInUse(v: Volume, s: Shape, w: Volume, c: nat, z: Shape)
    requires v.Shaped() && w.Shaped() && c < CLUSTER_MAP_SIZE && v.fat[c] != EMPTY_ENTRY && w.fat[c] == EMPTY_ENTRY
    requires StillReferred(v, s, w, c) && Inv(v, s)
    ensures !Inv(w, z)
  {
    hide TableOf, TreeInv, HeaderOk, HeapInv, ClusterNo, NamesOk, Clusters, NothingLost, IsChain;
    if Inv(w, z) {
      if c <= ROOT_CLUSTER_NUMBER {
        ReservedInUse(w, z, c);
      } else {
        var k := PlaceOf(v.fat, s.chains, s.owner, c);
        if k > 0 {
          UsedPointsAtUsed(w.fat, z.chains, z.owner, s.chains[s.owner[c]][k - 1]);
        } else {
          HeadFirst(v.fat, s.chains, s.owner, s.owner[c]);
          HeadStillNamed(v, s, w, c, z);
        }
      }
    }
  }

  lemma HeadStillNamed(v: Volume, s: Shape, w: Volume, c: nat, z: Shape)
    requires v.Shaped() && w.Shaped() && 2 < c < CLUSTER_MAP_SIZE && c in s.chains && StillReferred(v, s, w, c)
    requires Inv(v, s) && Inv(w, z)
    ensures w.fat[c] != EMPTY_ENTRY
  {
    hide TableOf, TreeInv, HeaderOk, HeapInv, ClusterNo, NamesOk, Clusters, NothingLost, TablesOf;
    var ts, tz := TablesOf(v.raw, s.depth.Keys), TablesOf(w.raw, z.depth.Keys);
    RootAndHomes(ts, s);
    HomeAt(ts, s, c);
    DepthKeys(ts, s);
    var (p, j) := s.home[c];
    DirAt(v, s, p);
    StillReached(v, s, w, z, p, s.depth[p]);
    TableStays(v, s, w, p, s.depth[p]);
    DirAt(w, z, p);
    EntryAt(tz, z, p, j);
    HeadInUse(w.fat, z.chains, z.owner, c);
  }
}
