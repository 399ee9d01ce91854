/** Space is conserved: what is free on a volume in order is determined by the names a
    user sees, so no sequence of calls can lose a cluster. */
module Space {
  import opened Layout
  import opened Volume
  import opened Heap
  import opened Tree
  import opened Consistency
  import opened Names
  import opened Runs
  import opened RunTheorems

  // -- Sums over maps --

  ghost function Some<K>(m: map<K, nat>): (k: K)
    requires m != map[]
    ensures k in m
  {
    var k :| k in m; k
  }

  ghost function Sum<K>(m: map<K, nat>): nat
    decreases |m|
  {
    if m == map[] then 0 else m[Some(m)] + Sum(m - {Some(m)})
  }

  /** It does not matter which key is taken first. */
  lemma {:induction false} SumWithout<K>(m: map<K, nat>, k: K)
    requires k in m
    ensures Sum(m) == m[k] + Sum(m - {k})
    decreases |m|
  {
    var x := Some(m);
    if x != k {
      SumWithout(m - {x}, k);
      SumWithout(m - {k}, x);
      assert m - {x} - {k} == m - {k} - {x};
    }
  }

  /** Maps that correspond key by key have the same sum. */
  lemma {:induction false} SumMatch<A, B>(a: map<A, nat>, b: map<B, nat>, g: map<A, B>)
    requires g.Keys == a.Keys && forall x :: x in a ==> g[x] in b && b[g[x]] == a[x]
    requires forall y :: y in b ==> exists x :: x in g && g[x] == y
    requires forall x, y :: x in g && y in g && g[x] == g[y] ==> x == y
    ensures Sum(a) == Sum(b)
    decreases |a|
  {
    if a == map[] {
      assert b == map[];
    } else {
      var x := Some(a);
      var b', g' := b - {g[x]}, g - {x};
      forall y | y in b' ensures exists z :: z in g' && g'[z] == y {
        var z :| z in g && g[z] == y;
        assert z in g';
      }
      SumMatch(a - {x}, b', g');
      SumWithout(b, g[x]);
    }
  }

  lemma {:induction false} SumOnes(m: map<nat, nat>, ones: set<nat>)
    requires forall k :: k in ones ==> k in m && m[k] == 1
    ensures Sum(m) == |ones| + Sum(m - ones)
    decreases |ones|
  {
    if ones == {} {
      assert m - ones == m;
    } else {
      var k :| k in ones;
      SumOnes(m - {k}, ones - {k});
      SumWithout(m, k);
      assert m - {k} - (ones - {k}) == m - ones;
    }
  }

  // -- Cells on chains --

  function Cells(cells: seq<nat>): (r: set<nat>)
    ensures forall c :: c in r <==> c in cells
  {
    if cells == [] then {} else Cells(cells[..|cells| - 1]) + {cells[|cells| - 1]}
  }

  lemma {:induction false} AscendingCount(cells: seq<nat>)
    requires Ascending(cells)
    ensures |Cells(cells)| == |cells|
  {
    if cells != [] {
      AscendingCount(cells[..|cells| - 1]);
    }
  }

  function Lengths(chains: Chains): map<nat, nat> {
    map h | h in chains :: |chains[h]|
  }

  /** Every owned cell is on its owner's chain, and chains own their cells. */
  ghost predicate Partition(chains: Chains, owner: Owners) {
    && (forall h :: h in chains ==> Ascending(chains[h]) && Owned(owner, h, chains[h]))
    && (forall c :: c in owner ==> owner[c] in chains && c in chains[owner[c]])
  }

  lemma DropOne(chains: Chains, owner: Owners, h: nat)
    requires Partition(chains, owner) && h in chains
    ensures Partition(chains - {h}, owner - Cells(chains[h]))
    ensures |owner| == |owner - Cells(chains[h])| + |chains[h]|
  {
    hide Ascending, Cells, Owned;
    var mine := Cells(chains[h]);
    forall g | g in chains - {h} ensures Owned(owner - mine, g, chains[g]) { StillOwned(chains, owner, h, g); }
    AscendingCount(chains[h]);
    SplitCount(owner, mine) by { assert Owned(owner, h, chains[h]); OwnsCells(owner, h, chains[h]); }
  }

  lemma OwnsCells(owner: Owners, h: nat, cells: seq<nat>)
    requires Owned(owner, h, cells)
    ensures forall c :: c in cells ==> c in owner && owner[c] == h
  {
  }

  lemma StillOwned(chains: Chains, owner: Owners, h: nat, g: nat)
    requires Partition(chains, owner) && h in chains && g in chains && g != h
    ensures Owned(owner - Cells(chains[h]), g, chains[g])
  {
    hide Ascending, Cells;
    assert Owned(owner, g, chains[g]) && Owned(owner, h, chains[h]);
  }

  lemma SplitCount(owner: Owners, mine: set<nat>)
    requires forall c :: c in mine ==> c in owner
    ensures |owner| == |owner - mine| + |mine|
  {
    assert owner.Keys == (owner - mine).Keys + mine;
  }

  /** The lengths of the chains add up to the cells owned. */
  lemma {:induction false} OwnedCount(chains: Chains, owner: Owners)
    requires Partition(chains, owner)
    ensures |owner| == Sum(Lengths(chains))
    decreases |chains|
  {
    if chains == map[] {
      assert owner == map[];
    } else {
      hide Partition, Cells;
      var h := Some(Lengths(chains));
      DropOne(chains, owner, h);
      OwnedCount(chains - {h}, owner - Cells(chains[h]));
      assert Lengths(chains) - {h} == Lengths(chains - {h});
    }
  }

  lemma {:induction false} ChainAscending(fat: seq<uint32>, h: nat, cells: seq<nat>, n: nat)
    requires |fat| == CLUSTER_MAP_SIZE && IsChain(fat, h, cells) && n <= |cells|
    ensures Ascending(cells[..n])
  {
    if n > 1 {
      ChainAscending(fat, h, cells, n - 1);
      assert LinkOk(fat, cells, n - 2);
      assert cells[..n - 1] == cells[..n][..n - 1];
    }
  }

  /** Free cells and cells on chains are all the cells from 2 on. */
  lemma HeapAddsUp(fat: seq<uint32>, chains: Chains, owner: Owners)
    requires HeapInv(fat, chains, owner)
    ensures |Free(fat)| + Sum(Lengths(chains)) == CLUSTER_MAP_SIZE - ROOT_CLUSTER_NUMBER
  {
    hide IsChain;
    forall h | h in chains ensures Ascending(chains[h]) && Owned(owner, h, chains[h]) {
      ChainAt(fat, chains, owner, h);
      ChainAscending(fat, h, chains[h], |chains[h]|);
      assert chains[h][..|chains[h]|] == chains[h];
    }
    forall c | c in owner ensures 2 <= c < CLUSTER_MAP_SIZE && owner[c] in chains && c in chains[owner[c]] {
      assert OwnerOk(chains, owner, c);
    }
    OwnedCount(chains, owner);
    FreeAddsUp(fat, owner);
  }

  lemma FreeAddsUp(fat: seq<uint32>, owner: Owners)
    requires |fat| == CLUSTER_MAP_SIZE
    requires forall c :: c in owner ==> 2 <= c < CLUSTER_MAP_SIZE
    requires forall c :: 2 <= c < CLUSTER_MAP_SIZE ==> (fat[c] != EMPTY_ENTRY <==> c in owner)
    ensures |Free(fat)| + |owner| == CLUSTER_MAP_SIZE - ROOT_CLUSTER_NUMBER
  {
    hide Cells, CellRange, Free, Ascending;
    FreeCells(fat, ROOT_CLUSTER_NUMBER);
    AscendingCount(Free(fat));
    var free, all := Cells(Free(fat)), CellRange(ROOT_CLUSTER_NUMBER, CLUSTER_MAP_SIZE);
    forall c | c in all ensures c in free || c in owner {
      if fat[c] == EMPTY_ENTRY { FreeHas(fat, ROOT_CLUSTER_NUMBER, c); }
    }
    TwoParts(free, owner.Keys, all);
  }

  lemma TwoParts(a: set<nat>, b: set<nat>, all: set<nat>)
    requires a !! b && forall c :: c in all <==> c in a || c in b
    ensures |a| + |b| == |all|
  {
    assert all == a + b;
  }

  // -- What the names take --

  /** The clusters of each file, by directory and name. */
  ghost function FileClusters(fs: FileSystem): map<(nat, seq<byte>), nat> {
    map d, n | d in fs && n in fs[d] && fs[d][n].File? :: (d, n) := Clusters(|fs[d][n].data|)
  }

  /** One cluster a directory, and each file rounded up to clusters. */
  ghost function Taken(fs: FileSystem): nat {
    |fs| + Sum(FileClusters(fs))
  }

  /** Where the file of that name starts. */
  ghost function HeadOf(v: Volume, x: (nat, seq<byte>)): nat
    requires |v.raw| == CLUSTER_MAP_SIZE
  {
    if x.0 < |v.raw| && |x.1| == 8 && FirstNamed(v.Dir(x.0), x.1) < |v.Dir(x.0)|
    then ClusterNo(v.Dir(x.0)[FirstNamed(v.Dir(x.0), x.1)]) else 0
  }

  function FileLengths(s: Shape): map<nat, nat> {
    Lengths(s.chains) - s.depth.Keys
  }

  lemma FileHasChain(v: Volume, s: Shape, d: nat, n: seq<byte>) returns (i: nat)
    requires Inv(v, s) && d in Abs(v, s) && n in Abs(v, s)[d] && Abs(v, s)[d][n].File?
    ensures d < CLUSTER_MAP_SIZE && i < |v.Dir(d)| && v.Dir(d)[i].name == n
    ensures FirstNamed(v.Dir(d), v.Dir(d)[i].name) == i
    ensures var c := HeadOf(v, (d, n));
            && c in FileLengths(s) && FileLengths(s)[c] == Clusters(|Abs(v, s)[d][n].data|)
            && c in s.home && s.home[c] == (d, i)
  {
    hide TableOf, TreeInv, HeapInv, HeaderOk, Abs, Listing, NamesOk, Walkable, Chain, ClusterNo, Clusters, Content,
      FirstNamed;
    AbsKeys(v, s);
    AbsAt(v, s, d);
    i := ListedIsLive(v.Dir(d), n);
    NodeAt(v, s, d, i);
    if i >= 1 { LiveEntryAt(v, s, d, i); }
  }

  lemma ChainHasFile(v: Volume, s: Shape, c: nat)
    requires Inv(v, s) && c in FileLengths(s)
    ensures exists x :: x in FileClusters(Abs(v, s)) && HeadOf(v, x) == c
  {
    hide TableOf, TreeInv, HeapInv, HeaderOk, Abs, Listing, NamesOk, Walkable, Chain, ClusterNo, Clusters, Content,
      FirstNamed, TablesOf;
    var ts := TablesOf(v.raw, s.depth.Keys);
    RootAndHomes(ts, s);
    DepthKeys(ts, s);
    HomeAt(ts, s, c);
    var (d, j) := s.home[c];
    DirAt(v, s, d);
    LiveEntryAt(v, s, d, j);
    NodeAt(v, s, d, j);
    var x := (d, v.Dir(d)[j].name);
    assert x in FileClusters(Abs(v, s)) && HeadOf(v, x) == c;
  }

  lemma FilesAddUp(v: Volume, s: Shape)
    requires Inv(v, s)
    ensures Sum(FileClusters(Abs(v, s))) == Sum(FileLengths(s))
  {
    hide TreeInv, HeapInv, HeaderOk, Abs, FileLengths, HeadOf, Clusters;
    var files := FileClusters(Abs(v, s));
    var g := map x | x in files :: HeadOf(v, x);
    forall x | x in files ensures g[x] in FileLengths(s) && FileLengths(s)[g[x]] == files[x] {
      var i := FileHasChain(v, s, x.0, x.1);
    }
    forall x, y | x in g && y in g && g[x] == g[y] ensures x == y {
      var i := FileHasChain(v, s, x.0, x.1);
      var j := FileHasChain(v, s, y.0, y.1);
    }
    forall c | c in FileLengths(s) ensures exists x :: x in g && g[x] == c {
      ChainHasFile(v, s, c);
      var x :| x in files && HeadOf(v, x) == c;
      assert x in g && g[x] == c;
    }
    SumMatch(files, FileLengths(s), g);
  }

  /** On a volume in order, free cells and what the names take are always the 510 cells
      the map has for files and directories. */
  lemma SpaceAddsUp(v: Volume, s: Shape)
    requires Inv(v, s)
    ensures |Free(v.fat)| + Taken(Abs(v, s)) == CLUSTER_MAP_SIZE - ROOT_CLUSTER_NUMBER
  {
    hide TableOf, TreeInv, HeaderOk, Abs, FileClusters, IsChain, HeapInv;
    HeapAddsUp(v.fat, s.chains, s.owner);
    forall d | d in s.depth ensures d in Lengths(s.chains) && Lengths(s.chains)[d] == 1 { DirAt(v, s, d); }
    SumOnes(Lengths(s.chains), s.depth.Keys);
    FilesAddUp(v, s);
    AbsKeys(v, s);
    assert |Abs(v, s)| == |Abs(v, s).Keys| && |s.depth| == |s.depth.Keys|;
  }

  /** A run that ends with as much stored as it began with ends with as much free. */
  lemma RunLosesNothing(v: Volume, s: Shape, ops: seq<Op>)
    requires Inv(v, s) && AllOwed(v, s, ops)
    ensures var (w, z) := After(v, s, ops);
            |Free(w.fat)| + Taken(Abs(w, z)) == |Free(v.fat)| + Taken(Abs(v, s))
  {
    hide TreeInv, HeapInv, HeaderOk, Abs, After, Answers, AllOwed, Taken, SpecRun;
    RunRefines(v, s, ops);
    var (w, z) := After(v, s, ops);
    SpaceAddsUp(v, s);
    SpaceAddsUp(w, z);
  }
}
