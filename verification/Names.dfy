/** The file system as a user sees it: for each directory, its names and what they stand
    for. The volume is mapped to it, and each driver operation is shown to be one small
    change of it. */
module Names {
  import opened Layout
  import opened Volume
  import opened Heap
  import opened Tree
  import opened Consistency

  datatype Node = File(ext: Ext, data: seq<byte>) | Folder(cluster: nat)
  type Directory = map<seq<byte>, Node>
  type FileSystem = map<nat, Directory>

  ghost predicate FileOk(raw: seq<seq<byte>>, chains: Chains, e: Entry) {
    && ClusterNo(e) in chains
    && (forall k :: 0 <= k < |chains[ClusterNo(e)]| ==> chains[ClusterNo(e)][k] < |raw|)
    && e.filesize <= |Content(raw, chains[ClusterNo(e)])|
  }

  ghost function NodeOf(raw: seq<seq<byte>>, chains: Chains, e: Entry): Node {
    if e.filesize > 0 && FileOk(raw, chains, e) then
      File(e.ext, Content(raw, chains[ClusterNo(e)])[..e.filesize])
    else Folder(ClusterNo(e))
  }

  ghost function LiveNames(t: Table): set<seq<byte>> {
    set i | 0 <= i < |t| && Live(t[i]) :: t[i].name
  }

  ghost function Listing(raw: seq<seq<byte>>, chains: Chains, t: Table): Directory {
    map n | n in LiveNames(t) :: NodeOf(raw, chains, t[FirstNamed(t, n)])
  }

  /** The directories of a volume and the names in each. A directory's own name stands
      for its parent. */
  ghost function Abs(v: Volume, s: Shape): FileSystem {
    map d | d in s.depth && d < |v.raw| :: Listing(v.raw, s.chains, v.Dir(d))
  }

  // -- One directory's listing --

  lemma ListingAt(raw: seq<seq<byte>>, chains: Chains, t: Table, i: nat)
    requires NamesOk(t) && i < |t| && Live(t[i])
    ensures t[i].name in Listing(raw, chains, t)
    ensures Listing(raw, chains, t)[t[i].name] == NodeOf(raw, chains, t[i])
  {
    SearchFindsLive(t, i);
    assert t[i].name in LiveNames(t);
  }

  lemma ListedIsLive(t: Table, n: seq<byte>) returns (i: nat)
    requires NamesOk(t) && n in LiveNames(t)
    ensures i < |t| && Live(t[i]) && t[i].name == n && FirstNamed(t, n) == i
  {
    i :| 0 <= i < |t| && Live(t[i]) && t[i].name == n;
    SearchFindsLive(t, i);
  }

  ghost predicate SameNodes(raw: seq<seq<byte>>, chains: Chains, raw': seq<seq<byte>>, chains': Chains,
                            t: Table, but: nat) {
    forall i :: 0 <= i < |t| && i != but && Live(t[i]) ==> NodeOf(raw', chains', t[i]) == NodeOf(raw, chains, t[i])
  }

  lemma ListingKept(raw: seq<seq<byte>>, chains: Chains, raw': seq<seq<byte>>, chains': Chains, t: Table)
    requires NamesOk(t) && SameNodes(raw, chains, raw', chains', t, |t|)
    ensures Listing(raw', chains', t) == Listing(raw, chains, t)
  {
    hide NodeOf, FirstNamed, NamesOk;
    forall n | n in LiveNames(t) ensures Listing(raw', chains', t)[n] == Listing(raw, chains, t)[n] {
      var i := ListedIsLive(t, n);
    }
  }

  lemma ListingAfterAdd(raw: seq<seq<byte>>, chains: Chains, raw': seq<seq<byte>>, chains': Chains, t: Table,
                        j: nat, e: Entry)
    requires NamesOk(t) && j < |t| && !Live(t[j]) && Live(e) && NamesOk(t[j := e])
    requires SameNodes(raw, chains, raw', chains', t, j)
    ensures Listing(raw', chains', t[j := e]) == Listing(raw, chains, t)[e.name := NodeOf(raw', chains', e)]
  {
    hide NodeOf, FirstNamed, NamesOk;
    var t', after := t[j := e], Listing(raw, chains, t)[e.name := NodeOf(raw', chains', e)];
    assert t'[j] == e;
    forall n | n in LiveNames(t') ensures n in after && Listing(raw', chains', t')[n] == after[n] {
      var i := ListedIsLive(t', n);
      if i != j {
        ListingAt(raw, chains, t, i);
        assert n != e.name by { SearchFindsLive(t', j); }
      }
    }
    forall n | n in after ensures n in LiveNames(t') {
      if n == e.name { assert t'[j].name == n; } else {
        var i := ListedIsLive(t, n);
        assert t'[i].name == n;
      }
    }
  }

  lemma NamesLeft(t: Table, j: nat, e: Entry, n: seq<byte>)
    requires NamesOk(t) && j < |t| && Live(t[j]) && !Live(e) && NamesOk(t[j := e])
    ensures n in LiveNames(t[j := e]) <==> n in LiveNames(t) && n != t[j].name
    ensures n in LiveNames(t[j := e]) ==>
              var i := FirstNamed(t, n);
              i < |t| && i != j && Live(t[i]) && FirstNamed(t[j := e], n) == i
  {
    hide FirstNamed, NamesOk;
    var t' := t[j := e];
    if n in LiveNames(t') {
      var i := ListedIsLive(t', n);
      assert t[i] == t'[i];
      SearchFindsLive(t, i);
      SearchFindsLive(t, j);
    }
    if n in LiveNames(t) && n != t[j].name {
      var i := ListedIsLive(t, n);
      assert t'[i] == t[i];
    }
  }

  lemma ListingAfterDrop(raw: seq<seq<byte>>, chains: Chains, raw': seq<seq<byte>>, chains': Chains,
                         t: Table, j: nat, e: Entry)
    requires NamesOk(t) && j < |t| && Live(t[j]) && !Live(e) && NamesOk(t[j := e])
    requires SameNodes(raw, chains, raw', chains', t, j)
    ensures Listing(raw', chains', t[j := e]) == Listing(raw, chains, t) - {t[j].name}
  {
    hide NodeOf, FirstNamed, NamesOk, LiveNames;
    forall n: seq<byte> ensures n in Listing(raw', chains', t[j := e]) <==> n in Listing(raw, chains, t) - {t[j].name} {
      NamesLeft(t, j, e, n);
    }
    forall n | n in LiveNames(t[j := e])
      ensures n in Listing(raw, chains, t) && Listing(raw', chains', t[j := e])[n] == Listing(raw, chains, t)[n]
    {
      NamesLeft(t, j, e, n);
    }
  }

  // -- Contents of files --

  lemma {:induction false} ContentKept(raw: seq<seq<byte>>, raw': seq<seq<byte>>, cells: seq<nat>)
    requires |raw'| == |raw| && forall k :: 0 <= k < |cells| ==> cells[k] < |raw| && raw'[cells[k]] == raw[cells[k]]
    ensures Content(raw', cells) == Content(raw, cells)
  {
    if |cells| > 0 {
      ContentKept(raw, raw', cells[..|cells| - 1]);
    }
  }

  lemma {:induction false} ContentStored(raw: seq<seq<byte>>, cells: seq<nat>, data: seq<byte>)
    requires CLUSTER_SIZE * |cells| <= |data|
    requires forall k :: 0 <= k < |cells| ==> cells[k] < |raw| && raw[cells[k]] == Chunk(data, k)
    ensures Content(raw, cells) == data[..CLUSTER_SIZE * |cells|]
  {
    if |cells| > 0 {
      var n := |cells| - 1;
      ContentStored(raw, cells[..n], data);
      assert data[..CLUSTER_SIZE * |cells|] == data[..CLUSTER_SIZE * n] + Chunk(data, n);
    }
  }

  /** The file just stored reads back as the bytes written, padding cut off. */
  lemma StoredNode(raw: seq<seq<byte>>, chains: Chains, e: Entry, cells: seq<nat>, buf: seq<byte>, last: nat)
    requires e.filesize > 0 && ClusterNo(e) in chains && chains[ClusterNo(e)] == cells
    requires |cells| == Clusters(e.filesize) && CLUSTER_SIZE * Clusters(e.filesize) <= |buf|
    requires forall k :: 0 <= k < |cells| ==>
               cells[k] < |raw| && raw[cells[k]] == Chunk(Padded(buf, e.filesize, last), k)
    ensures NodeOf(raw, chains, e) == File(e.ext, buf[..e.filesize])
  {
    hide ClusterNo, Chunk;
    ContentStored(raw, cells, Padded(buf, e.filesize, last));
  }

  /** The node of a live entry does not change when its chain's clusters do not. */
  lemma NodeKept(v: Volume, s: Shape, w: Volume, chains: Chains, d: nat, i: nat)
    requires Inv(v, s) && w.Shaped() && d in s.depth && d < |v.raw| && i < |v.Dir(d)| && Live(v.Dir(d)[i])
    requires var c := ClusterNo(v.Dir(d)[i]);
             c in s.chains && v.Dir(d)[i].filesize > 0 ==>
               && c in chains && chains[c] == s.chains[c]
               && forall k :: 0 <= k < |s.chains[c]| && s.chains[c][k] < |v.raw| ==>
                    w.raw[s.chains[c][k]] == v.raw[s.chains[c][k]]
    ensures NodeOf(w.raw, chains, v.Dir(d)[i]) == NodeOf(v.raw, s.chains, v.Dir(d)[i])
  {
    hide TableOf, ClusterNo, TreeInv, Signature, CellsOf, Clusters, TablesOf;
    DirAt(v, s, d);
    At(TablesOf(v.raw, s.depth.Keys), s, d);
    if i > 0 && v.Dir(d)[i].filesize > 0 {
      LiveEntryAt(v, s, d, i);
      var cells := s.chains[ClusterNo(v.Dir(d)[i])];
      ChainApart(v, s, ClusterNo(v.Dir(d)[i]));
      ContentKept(v.raw, w.raw, cells);
    }
  }

  // -- Each operation as a change of the names --

  lemma NamesAt(v: Volume, s: Shape, d: nat)
    requires Inv(v, s) && d in s.depth
    ensures 2 <= d < CLUSTER_MAP_SIZE && |v.Dir(d)| == TABLE_SIZE && NamesOk(v.Dir(d))
  {
    hide TreeInv, TableOf, CellsOf, Signature, HeapInv, NamesOk, TablesOf;
    DirAt(v, s, d);
    At(TablesOf(v.raw, s.depth.Keys), s, d);
  }

  /** The chains of files and folders already there lie outside the cells a write picks. */
  lemma ChainsApartFrom(v: Volume, s: Shape, cells: seq<nat>, h: nat)
    requires Inv(v, s) && FreeCellsOf(v.fat, cells) && h in s.chains && h != ROOT_CLUSTER_NUMBER
    ensures forall k :: 0 <= k < |s.chains[h]| ==> 2 < s.chains[h][k] < CLUSTER_MAP_SIZE && s.chains[h][k] !in cells
  {
    hide TreeInv, TableOf, TablesOf, CellsOf, Signature;
    ChainApart(v, s, h);
    ChainAt(v.fat, s.chains, s.owner, h);
    forall k | 0 <= k < |s.chains[h]| ensures s.chains[h][k] !in cells {
      assert s.chains[h][k] in s.owner;
    }
  }

  /** No file keeps its bytes in a directory's cluster. */
  lemma FileApartFromDir(v: Volume, s: Shape, d: nat, x: nat, i: nat)
    requires Inv(v, s) && d in s.depth && x in s.depth && x < |v.raw| && i < |v.Dir(x)| && Live(v.Dir(x)[i])
    requires v.Dir(x)[i].filesize > 0
    ensures ClusterNo(v.Dir(x)[i]) in s.chains && ClusterNo(v.Dir(x)[i]) != ROOT_CLUSTER_NUMBER
    ensures ClusterNo(v.Dir(x)[i]) !in s.depth && ClusterNo(v.Dir(x)[i]) in s.home && i >= 1
    ensures s.home[ClusterNo(v.Dir(x)[i])] == (x, i)
    ensures d !in s.chains[ClusterNo(v.Dir(x)[i])]
  {
    hide TreeInv, TableOf, TablesOf, CellsOf, Signature, HeapInv, ClusterNo, Clusters;
    DirAt(v, s, x);
    At(TablesOf(v.raw, s.depth.Keys), s, x);
    LiveEntryAt(v, s, x, i);
    ChainApart(v, s, ClusterNo(v.Dir(x)[i]));
  }

  /** Writes to free cells, to the FAT and to directory `d`'s cluster leave every node that
      was there as it was. */
  lemma NodesKeptByWrite(v: Volume, s: Shape, w: Volume, chains: Chains, d: nat, cells: seq<nat>, x: nat)
    requires Inv(v, s) && w.Shaped() && d in s.depth && x in s.depth && x < |v.raw|
    requires FreeCellsOf(v.fat, cells)
    requires forall h :: h in s.chains ==> h in chains && chains[h] == s.chains[h]
    requires forall c :: 2 <= c < |v.raw| && c !in cells && c != d ==> w.raw[c] == v.raw[c]
    ensures SameNodes(v.raw, s.chains, w.raw, chains, v.Dir(x), |v.Dir(x)|)
  {
    hide TreeInv, TableOf, TablesOf, CellsOf, Signature, HeapInv, NodeOf, ClusterNo, FreeCellsOf;
    forall i | 0 <= i < |v.Dir(x)| && Live(v.Dir(x)[i])
      ensures NodeOf(w.raw, chains, v.Dir(x)[i]) == NodeOf(v.raw, s.chains, v.Dir(x)[i])
    {
      if v.Dir(x)[i].filesize > 0 {
        FileApartFromDir(v, s, d, x, i);
        ChainsApartFrom(v, s, cells, ClusterNo(v.Dir(x)[i]));
      }
      NodeKept(v, s, w, chains, x, i);
    }
  }

  /** Directory `x` after an entry was added to `d` and free cells were written. */
  lemma ListingsAfterAdd(v: Volume, s: Shape, w: Volume, s': Shape, d: nat, j: nat, e: Entry, cells: seq<nat>, x: nat)
    requires v.Shaped() && w.Shaped() && d in s.depth && d in s'.depth && x in s.depth && x in s'.depth
    requires d < CLUSTER_MAP_SIZE && x < CLUSTER_MAP_SIZE && d !in cells && x !in cells && FreeCellsOf(v.fat, cells)
    requires forall h :: h in s.chains ==> h in s'.chains && s'.chains[h] == s.chains[h]
    requires forall c :: 2 <= c < CLUSTER_MAP_SIZE && c !in cells && c != d ==> w.raw[c] == v.raw[c]
    requires j < |v.Dir(d)| && !Live(v.Dir(d)[j]) && Live(e) && w.Dir(d) == v.Dir(d)[j := e]
    requires Inv(v, s) && Inv(w, s')
    ensures Listing(w.raw, s'.chains, w.Dir(x)) ==
            if x == d then Listing(v.raw, s.chains, v.Dir(d))[e.name := NodeOf(w.raw, s'.chains, e)]
            else Listing(v.raw, s.chains, v.Dir(x))
  {
    hide TableOf, CellsOf, TreeInv, HeapInv, FreeCellsOf, Signature, HeaderOk, NodeOf, Listing, NamesOk, SizedClusters;
    NamesAt(v, s, x);
    NamesAt(w, s', x);
    NodesKeptByWrite(v, s, w, s'.chains, d, cells, x);
    if x == d { ListingAfterAdd(v.raw, s.chains, w.raw, s'.chains, v.Dir(d), j, e); }
    else { ListingKept(v.raw, s.chains, w.raw, s'.chains, v.Dir(x)); }
  }

  /** All directories after an entry was added to `d` and free cells were written, no
      directory having come. */
  lemma AbsAfterAdd(v: Volume, s: Shape, w: Volume, s': Shape, d: nat, j: nat, e: Entry, cells: seq<nat>)
    requires v.Shaped() && w.Shaped() && d in s.depth && s'.depth.Keys == s.depth.Keys && d < CLUSTER_MAP_SIZE
    requires (forall x :: x in s.depth ==> x !in cells) && FreeCellsOf(v.fat, cells)
    requires forall h :: h in s.chains ==> h in s'.chains && s'.chains[h] == s.chains[h]
    requires forall c :: 2 <= c < CLUSTER_MAP_SIZE && c !in cells && c != d ==> w.raw[c] == v.raw[c]
    requires j < |v.Dir(d)| && !Live(v.Dir(d)[j]) && Live(e) && w.Dir(d) == v.Dir(d)[j := e]
    requires Inv(v, s) && Inv(w, s')
    ensures d in Abs(v, s) && Abs(w, s') == Abs(v, s)[d := Abs(v, s)[d][e.name := NodeOf(w.raw, s'.chains, e)]]
  {
    hide TableOf, Inv, Listing, SizedClusters, NodeOf, FreeCellsOf;
    forall x | x in s.depth && x < |v.raw| ensures Listing(w.raw, s'.chains, w.Dir(x)) ==
        if x == d then Listing(v.raw, s.chains, v.Dir(d))[e.name := NodeOf(w.raw, s'.chains, e)]
        else Listing(v.raw, s.chains, v.Dir(x))
    {
      ListingsAfterAdd(v, s, w, s', d, j, e, cells, x);
    }
  }

  /** `write` of a file adds one name, standing for the first `bufferSize` bytes given. */
  lemma FileWriteAdds(v: Volume, s: Shape, q: Request, buf: seq<byte>)
    requires Inv(v, s) && WriteReady(v, q, |buf|) && q.bufferSize > 0
    requires FreshName(v, s, q.parent, q.name) && FirstDead(v.Dir(q.parent)) < TABLE_SIZE
    ensures v.fat[q.parent] != EMPTY_ENTRY && Clusters(q.bufferSize) <= |Free(v.fat)| && q.bufferSize <= |buf|
    ensures q.parent in Abs(v, s) && q.name !in Abs(v, s)[q.parent]
    ensures Abs(FileWritten(v, q, buf).vol, ShapeAfterFile(v, s, q))
            == Abs(v, s)[q.parent := Abs(v, s)[q.parent][q.name := File(q.ext, buf[..q.bufferSize])]]
  {
    hide TableOf, TableBytes, CellBytes, CellsOf, Link, FileWritten, TreeInv, HeapInv, FirstDead, Picked,
      FreeCellsOf, Signature, TablesOf, AddedOwners, HeaderOk, NodeOf, Listing, NamesOk, Padded, Chunk, SizedClusters,
      Clusters;
    DirAt(v, s, q.parent);
    FileWrittenRaw(v, q, buf);
    FileWriteKeepsInv(v, s, q, buf);
    var w, s', cells := FileWritten(v, q, buf).vol, ShapeAfterFile(v, s, q), Picked(v, q.bufferSize);
    var e := FileEntry(q.name, q.ext, cells[0], q.bufferSize);
    var t, j := v.Dir(q.parent), FirstDead(v.Dir(q.parent));
    ClusterSplit(cells[0]);
    FreeCellsApart(v, s, cells);
    TableRoundTrip(t[j := e]);
    StoredNode(w.raw, s'.chains, e, cells, buf, cells[|cells| - 1]);
    NotListed(v.raw, s.chains, t, q.name);
    AbsAfterAdd(v, s, w, s', q.parent, j, e, cells);
  }

  lemma NotListed(raw: seq<seq<byte>>, chains: Chains, t: Table, name: Name)
    requires forall i :: 0 <= i < |t| && Live(t[i]) ==> t[i].name != name
    ensures name !in Listing(raw, chains, t)
  {
  }

  /** `write` of a folder adds one name, and a directory that knows only its parent. */
  lemma FolderWriteAdds(v: Volume, s: Shape, q: Request, stack: Entry, selfStack: Entry)
    requires Inv(v, s) && WriteReady(v, q, 0) && q.bufferSize == 0
    requires FreshName(v, s, q.parent, q.name) && FirstDead(v.Dir(q.parent)) < TABLE_SIZE
    ensures v.fat[q.parent] != EMPTY_ENTRY && 1 <= |Free(v.fat)|
    ensures q.parent in Abs(v, s) && q.name !in Abs(v, s)[q.parent] && Free(v.fat)[0] !in Abs(v, s)
    ensures Abs(FolderWritten(v, q, stack, selfStack).vol, ShapeAfterFolder(v, s, q.parent))
            == Abs(v, s)[q.parent := Abs(v, s)[q.parent][q.name := Folder(Free(v.fat)[0])]]
               [Free(v.fat)[0] := map[q.name := Folder(q.parent)]]
  {
    hide TableOf, TableBytes, CellBytes, CellsOf, Link, TreeInv, HeapInv, FirstDead, FreeCellsOf, Signature, TablesOf,
      AddedOwners, HeaderOk, NodeOf, Listing, NamesOk, NewTable, Clusters, FolderWritten,
      SizedClusters;
    DirAt(v, s, q.parent);
    FirstFree(v);
    FolderWriteKeepsInv(v, s, q, stack, selfStack);
    var w, s', c := FolderWritten(v, q, stack, selfStack).vol, ShapeAfterFolder(v, s, q.parent), Free(v.fat)[0];
    var t, j, e := v.Dir(q.parent), FirstDead(v.Dir(q.parent)), FolderEntry(stack, q.name, c);
    ClusterSplit(c);
    FreeCellsApart(v, s, [c]);
    FolderWrittenRaw(v, q, stack, selfStack);
    FreshListing(w.raw, s'.chains, selfStack, q.name, q.parent);
    NotListed(v.raw, s.chains, t, q.name);
    FolderNode(w.raw, s'.chains, e);
    forall x | x in s.depth && x < |v.raw| ensures Listing(w.raw, s'.chains, w.Dir(x)) ==
        if x == q.parent then Listing(v.raw, s.chains, t)[q.name := Folder(c)]
        else Listing(v.raw, s.chains, v.Dir(x))
    {
      ListingsAfterAdd(v, s, w, s', q.parent, j, e, [c], x);
    }
  }

  lemma FolderNode(raw: seq<seq<byte>>, chains: Chains, e: Entry)
    requires e.filesize == 0
    ensures NodeOf(raw, chains, e) == Folder(ClusterNo(e))
  {
  }

  lemma FolderWrittenRaw(v: Volume, q: Request, stack: Entry, selfStack: Entry)
    requires v.Shaped() && WriteReady(v, q, 0) && q.bufferSize == 0 && 2 <= q.parent
    requires v.fat[q.parent] != EMPTY_ENTRY && FirstDead(v.Dir(q.parent)) < TABLE_SIZE
    ensures 2 <= Free(v.fat)[0] < CLUSTER_MAP_SIZE && q.parent != Free(v.fat)[0]
    ensures var w, c := FolderWritten(v, q, stack, selfStack).vol, Free(v.fat)[0];
            && w.Shaped()
            && w.Dir(c) == NewTable(selfStack, q.name, q.parent)
            && w.Dir(q.parent) == v.Dir(q.parent)[FirstDead(v.Dir(q.parent)) := FolderEntry(stack, q.name, c)]
            && forall x :: 2 <= x < |v.raw| && x != c && x != q.parent ==> w.raw[x] == v.raw[x]
  {
    hide TableOf, TableBytes, CellBytes, FirstDead, NewTable, FolderEntry;
    FirstFree(v);
    FolderWrittenShaped(v, q, stack, selfStack);
    TableRoundTrip(NewTable(selfStack, q.name, q.parent));
    TableRoundTrip(v.Dir(q.parent)[FirstDead(v.Dir(q.parent)) := FolderEntry(stack, q.name, Free(v.fat)[0])]);
  }

  lemma FreshListing(raw: seq<seq<byte>>, chains: Chains, stack: Entry, name: Name, parent: uint32)
    requires parent < CLUSTER_MAP_SIZE
    ensures Listing(raw, chains, NewTable(stack, name, parent)) == map[name := Folder(parent)]
  {
    var t := NewTable(stack, name, parent);
    ClusterSplit(parent);
    assert t[0].name == name && Live(t[0]);
    assert FirstNamed(t, name) == 0;
    assert LiveNames(t) == {name};
  }

  // -- Deleting --

  /** Freeing the chain of `c` and rewriting directory `d` leaves every other node as it was. */
  lemma NodesKeptByDelete(v: Volume, s: Shape, w: Volume, d: nat, c: nat, x: nat, but: nat)
    requires Inv(v, s) && w.Shaped() && d in s.depth && x in s.depth && x < |v.raw|
    requires c in s.chains && c != ROOT_CLUSTER_NUMBER && c in s.home
    requires s.home[c] == (x, but) || but == |v.Dir(x)|
    requires but == |v.Dir(x)| ==> s.home[c].0 != x
    requires forall k :: 2 <= k < |v.raw| && k !in s.chains[c] && k != d ==> w.raw[k] == v.raw[k]
    ensures SameNodes(v.raw, s.chains, w.raw, s.chains - {c}, v.Dir(x), but)
  {
    hide TreeInv, TableOf, TablesOf, CellsOf, Signature, HeapInv, NodeOf, ClusterNo;
    forall i | 0 <= i < |v.Dir(x)| && i != but && Live(v.Dir(x)[i])
      ensures NodeOf(w.raw, s.chains - {c}, v.Dir(x)[i]) == NodeOf(v.raw, s.chains, v.Dir(x)[i])
    {
      if v.Dir(x)[i].filesize > 0 {
        FileApartFromDir(v, s, d, x, i);
        var f := ClusterNo(v.Dir(x)[i]);
        ChainApart(v, s, f);
        ChainsDisjoint(v.fat, s.chains, s.owner, f, c);
      }
      NodeKept(v, s, w, s.chains - {c}, x, i);
    }
  }

  /** Directory `x` after the entry of `c` in `d` was dropped and `c`'s chain freed. */
  lemma ListingsAfterDrop(v: Volume, s: Shape, w: Volume, s': Shape, d: nat, i: nat, e: Entry, c: nat, x: nat)
    requires v.Shaped() && w.Shaped() && d in s.depth && d in s'.depth && x in s.depth && x in s'.depth
    requires d < CLUSTER_MAP_SIZE && x < CLUSTER_MAP_SIZE && c != ROOT_CLUSTER_NUMBER
    requires c in s.chains && x !in s.chains[c] && c in s.home && s.home[c] == (d, i) && s'.chains == s.chains - {c}
    requires forall k :: 2 <= k < CLUSTER_MAP_SIZE && k !in s.chains[c] && k != d ==> w.raw[k] == v.raw[k]
    requires i < |v.Dir(d)| && Live(v.Dir(d)[i]) && !Live(e) && w.Dir(d) == v.Dir(d)[i := e]
    requires Inv(v, s) && Inv(w, s')
    ensures Listing(w.raw, s'.chains, w.Dir(x)) ==
            if x == d then Listing(v.raw, s.chains, v.Dir(d)) - {v.Dir(d)[i].name}
            else Listing(v.raw, s.chains, v.Dir(x))
  {
    hide TableOf, CellsOf, TreeInv, HeapInv, Signature, HeaderOk, NodeOf, Listing, NamesOk, SizedClusters;
    NamesAt(v, s, x);
    NamesAt(w, s', x);
    NodesKeptByDelete(v, s, w, d, c, x, if x == d then i else |v.Dir(x)|);
    if x == d { ListingAfterDrop(v.raw, s.chains, w.raw, s'.chains, v.Dir(d), i, e); }
    else { ListingKept(v.raw, s.chains, w.raw, s'.chains, v.Dir(x)); }
  }

  /** All directories after the entry of `c` in `d` was dropped and `c`'s chain freed, no
      directory having gone. */
  lemma AbsAfterDrop(v: Volume, s: Shape, w: Volume, s': Shape, d: nat, i: nat, e: Entry, c: nat)
    requires v.Shaped() && w.Shaped() && d in s.depth && s'.depth.Keys == s.depth.Keys
    requires d < CLUSTER_MAP_SIZE && c != ROOT_CLUSTER_NUMBER
    requires c in s.chains && c in s.home && s.home[c] == (d, i) && s'.chains == s.chains - {c}
    requires forall x :: x in s.depth ==> x !in s.chains[c]
    requires forall k :: 2 <= k < CLUSTER_MAP_SIZE && k !in s.chains[c] && k != d ==> w.raw[k] == v.raw[k]
    requires i < |v.Dir(d)| && Live(v.Dir(d)[i]) && !Live(e) && w.Dir(d) == v.Dir(d)[i := e]
    requires Inv(v, s) && Inv(w, s')
    ensures d in Abs(v, s) && Abs(w, s') == Abs(v, s)[d := Abs(v, s)[d] - {v.Dir(d)[i].name}]
  {
    hide TableOf, Inv, Listing, SizedClusters;
    forall x | x in s.depth && x < |v.raw| ensures Listing(w.raw, s'.chains, w.Dir(x)) ==
        if x == d then Listing(v.raw, s.chains, v.Dir(d)) - {v.Dir(d)[i].name} else Listing(v.raw, s.chains, v.Dir(x))
    {
      ListingsAfterDrop(v, s, w, s', d, i, e, c, x);
    }
  }

  /** `delete` of a file removes its name and nothing else. */
  lemma FileDeleteRemoves(v: Volume, s: Shape, d: nat, i: nat)
    requires Inv(v, s) && d in s.depth && d < CLUSTER_MAP_SIZE && 1 <= i < |v.Dir(d)| && Live(v.Dir(d)[i])
    requires v.Dir(d)[i].filesize > 0
    ensures Walkable(v.fat, ClusterNo(v.Dir(d)[i])) && d in Abs(v, s)
    ensures Abs(FileDeleted(v, d, i), ShapeAfterDelete(v, s, d, i))
            == Abs(v, s)[d := Abs(v, s)[d] - {v.Dir(d)[i].name}]
  {
    hide TableOf, TableBytes, CellBytes, TreeInv, HeapInv, HeaderOk, ClusterNo, Clusters, IsChain, Owned, Walkable,
      Chain, DroppedOwners, FirstNamed, FileDeleted, Release, Abs, NamesOk;
    LiveEntryAt(v, s, d, i);
    FileDeleteKeepsInv(v, s, d, i);
    DirAt(v, s, d);
    var c, w, s' := ClusterNo(v.Dir(d)[i]), FileDeleted(v, d, i), ShapeAfterDelete(v, s, d, i);
    ChainApart(v, s, c);
    FileDeletedRaw(v, d, i, s.chains[c]);
    TableRoundTrip(v.Dir(d)[i := ZERO_ENTRY]);
    AbsAfterDrop(v, s, w, s', d, i, ZERO_ENTRY, c);
  }

  /** `delete` of an empty folder removes its name and its directory and nothing else. */
  lemma FolderDeleteRemoves(v: Volume, s: Shape, d: nat, i: nat)
    requires Inv(v, s) && d in s.depth && d < CLUSTER_MAP_SIZE && 1 <= i < |v.Dir(d)| && Live(v.Dir(d)[i])
    requires v.Dir(d)[i].filesize == 0
    requires ClusterNo(v.Dir(d)[i]) < CLUSTER_MAP_SIZE && !HasEntries(v.Dir(ClusterNo(v.Dir(d)[i])))
    ensures d in Abs(v, s) && ClusterNo(v.Dir(d)[i]) != d
    ensures Abs(FolderDeleted(v, d, i), ShapeAfterDelete(v, s, d, i))
            == (Abs(v, s) - {ClusterNo(v.Dir(d)[i])})[d := Abs(v, s)[d] - {v.Dir(d)[i].name}]
  {
    hide TableOf, TableBytes, CellBytes, CellsOf, TreeInv, HeapInv, Signature, TablesOf, HeaderOk, ClusterNo, Clusters,
      IsChain, Owned, Walkable, Chain, DroppedOwners, FirstNamed, NodeOf, Listing, NamesOk, HasEntries;
    LiveEntryAt(v, s, d, i);
    FolderDeleteKeepsInv(v, s, d, i);
    DirAt(v, s, d);
    FolderDeletedShaped(v, d, i);
    var c, w, s' := ClusterNo(v.Dir(d)[i]), FolderDeleted(v, d, i), ShapeAfterDelete(v, s, d, i);
    DirAt(v, s, c);
    var dead := v.Dir(d)[i].(userAttribute := 0);
    TableRoundTrip(v.Dir(d)[i := dead]);
    SelfApart(v, s, d, i);
    forall x | x in s.depth && x != c && x < |v.raw| ensures Listing(w.raw, s'.chains, w.Dir(x)) ==
        if x == d then Listing(v.raw, s.chains, v.Dir(d)) - {v.Dir(d)[i].name} else Listing(v.raw, s.chains, v.Dir(x))
    {
      ListingsAfterDrop(v, s, w, s', d, i, dead, c, x);
    }
  }

  lemma SelfApart(v: Volume, s: Shape, d: nat, i: nat)
    requires Inv(v, s) && d in s.depth && d < CLUSTER_MAP_SIZE && 1 <= i < |v.Dir(d)| && Live(v.Dir(d)[i])
    ensures ClusterNo(v.Dir(d)[i]) != d
  {
    hide TableOf, TreeInv, ClusterNo, Clusters, NamesOk, CellsOf, Signature, HeapInv;
    var ts := TablesOf(v.raw, s.depth.Keys);
    DirAt(v, s, d);
    At(ts, s, d);
    EntryAt(ts, s, d, i);
    HomeAt(ts, s, ClusterNo(v.Dir(d)[i]));
  }
}
