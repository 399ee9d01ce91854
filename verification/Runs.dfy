/** Whole runs of the driver against the plain model of names: what each call answers and
    how it changes the names, for every sequence of calls its callers may make. */
module Runs {
  import opened Layout
  import opened Volume
  import opened Heap
  import opened Tree
  import opened Consistency
  import opened Names
  import ChainWalk

  datatype Op =
    | Write(q: Request, buf: seq<byte>, stack: Entry, selfStack: Entry)
    | Delete(q: Request)
    | ReadFile(q: Request)
    | ReadFolder(q: Request)

  /** The code a call returns and the bytes it hands over. */
  datatype Reply = Reply(code: int, data: seq<byte>)

  predicate Ready(v: Volume, op: Op) {
    match op
    case Write(q, buf, _, _) => WriteReady(v, q, |buf|)
    case Delete(q) => DeleteReady(v, q)
    case ReadFile(q) => ReadReady(v, q)
    case ReadFolder(q) => ReadDirectoryReady(v, q)
  }

  function Next(v: Volume, op: Op): Volume
    requires v.Shaped() && Ready(v, op)
  {
    match op
    case Write(q, buf, stack, selfStack) => Written(v, q, buf, stack, selfStack).vol
    case Delete(q) => Deleted(v, q).vol
    case _ => v
  }

  function Answer(v: Volume, op: Op): Reply
    requires v.Shaped() && Ready(v, op)
  {
    match op
    case Write(q, buf, stack, selfStack) => Reply(Written(v, q, buf, stack, selfStack).code, [])
    case Delete(q) => Reply(Deleted(v, q).code, [])
    case ReadFile(q) => Reply(FileRead(v, q).code, Content(v.raw, FileRead(v, q).cells))
    case ReadFolder(q) =>
      Reply(FolderRead(v, q).code, if FolderRead(v, q).code == 0 then v.raw[FolderRead(v, q).cells[0]] else [])
  }

  // -- The plain model --

  /** Only its own name. */
  ghost predicate Empty(dir: Directory) {
    |dir| == 1 && forall n :: n in dir ==> dir[n].Folder?
  }

  /** The entry says what the node is: a folder's cluster, or a file's extension and size. */
  predicate EntryShows(e: Entry, node: Node) {
    match node
    case Folder(c) => e.filesize == 0 && ClusterNo(e) == c
    case File(ext, data) => e.filesize == |data| > 0 && e.ext == ext
  }

  /** The live entries of the table are the names of the directory, each with what it
      stands for, and but for its own name marked as folder or file. */
  ghost predicate Shows(t: Table, dir: Directory) {
    && LiveNames(t) == dir.Keys
    && forall i :: 0 <= i < |t| && Live(t[i]) ==>
         && t[i].name in dir && EntryShows(t[i], dir[t[i].name])
         && (i > 0 ==> (dir[t[i].name].Folder? <==> t[i].attribute == ATR_DIRECTORY))
  }

  /** What one call may do to the names, and what it must answer. */
  ghost predicate SpecStep(fs: FileSystem, op: Op, fs': FileSystem, r: Reply) {
    var d, n := op.q.parent, op.q.name;
    match op
    case Write(q, buf, _, _) =>
      if d !in fs then fs' == fs && r.code == 2
      else if q.bufferSize == 0 then
        && r.code == 0 && n !in fs[d]
        && exists c :: c !in fs && fs' == fs[d := fs[d][n := Folder(c)]][c := map[n := Folder(d)]]
      else if |fs[d]| == TABLE_SIZE then fs' == fs && r.code == -1
      else
        && r.code == 0 && n !in fs[d] && q.bufferSize <= |buf|
        && fs' == fs[d := fs[d][n := File(q.ext, buf[..q.bufferSize])]]
    case Delete(q) =>
      if n == NO_NAME then fs' == fs && r.code == -1
      else
        && d in fs
        && if n !in fs[d] then fs' == fs && r.code == 1
           else if fs[d][n].File? then r.code == 0 && fs' == fs[d := fs[d] - {n}]
           else
             var c := fs[d][n].cluster;
             && c in fs
             && if Empty(fs[c]) then r.code == 0 && fs' == (fs - {c})[d := fs[d] - {n}]
                else fs' == fs && r.code == 2
    case ReadFile(q) =>
      && fs' == fs
      && if n == NO_NAME then r == Reply(-1, [])
         else d in fs && if n !in fs[d] then r == Reply(3, [])
                         else if fs[d][n].Folder? then r == Reply(1, [])
                         else FileAnswer(fs[d][n].data, q.bufferSize, r)
    case ReadFolder(q) =>
      && fs' == fs
      && if q.bufferSize != CLUSTER_SIZE then r == Reply(-1, [])
         else d in fs && if n !in fs[d] then r == Reply(2, [])
                         else if fs[d][n].File? then r == Reply(1, [])
                         else fs[d][n].cluster in fs && r.code == 0
                              && Shows(TableOf(r.data), fs[fs[d][n].cluster])
  }

  /** `read` answers 2 exactly when CLUSTER_MAP_SIZE bytes a cluster, the last one not
      counted, exceed the buffer size: never for a buffer as large as the file. */
  ghost predicate FileAnswer(data: seq<byte>, bufferSize: nat, r: Reply) {
    var n := Clusters(|data|);
    if CLUSTER_MAP_SIZE * (n - 1) > bufferSize then
      var got := CLUSTER_SIZE * (bufferSize / CLUSTER_MAP_SIZE + 1);
      r.code == 2 && got <= |data| && r.data == data[..got]
    else
      r.code == 0 && |r.data| == CLUSTER_SIZE * n >= |data| && r.data[..|data|] == data
  }

  ghost predicate SpecRun(fs: FileSystem, ops: seq<Op>, replies: seq<Reply>, fs': FileSystem)
    decreases |ops|
  {
    if ops == [] then replies == [] && fs' == fs
    else
      replies != []
      && exists mid :: SpecStep(fs, ops[0], mid, replies[0]) && SpecRun(mid, ops[1..], replies[1..], fs')
  }

  // -- What callers owe --

  /** The name is either in use or nowhere in the table: not left over from a folder
      deleted earlier, whose entry keeps its name. */
  ghost predicate NotStale(v: Volume, d: nat, name: Name)
    requires d < |v.raw|
  {
    var i := FirstNamed(v.Dir(d), name);
    i < |v.Dir(d)| ==> Live(v.Dir(d)[i])
  }

  ghost predicate Owed(v: Volume, s: Shape, op: Op)
    requires |v.fat| == |v.raw| == CLUSTER_MAP_SIZE
  {
    var q := op.q;
    match op
       case Write(_, buf, _, _) =>
         && q.parent < CLUSTER_MAP_SIZE
         && (v.fat[q.parent] == EMPTY_ENTRY
         || (&& FreshName(v, s, q.parent, q.name) && WriteReady(v, q, |buf|)
             && (q.bufferSize == 0 ==> FirstDead(v.Dir(q.parent)) < TABLE_SIZE)))
       case Delete(_) =>
         q.name == NO_NAME
         || (&& q.parent in s.depth && q.parent < CLUSTER_MAP_SIZE && NotStale(v, q.parent, q.name)
             && var i := FirstNamed(v.Dir(q.parent), q.name);
             i < |v.Dir(q.parent)| ==>
               && (v.Dir(q.parent)[i].filesize == 0 <==> q.ext == NO_EXT)
               && (q.parent == ROOT_CLUSTER_NUMBER && i == 0 ==> HasEntries(v.Dir(q.parent))))
       case ReadFile(_) =>
         q.name == NO_NAME
         || (q.parent in s.depth && q.parent < CLUSTER_MAP_SIZE && NotStale(v, q.parent, q.name))
       case ReadFolder(_) =>
         q.bufferSize != CLUSTER_SIZE
         || (q.parent in s.depth && q.parent < CLUSTER_MAP_SIZE && NotStale(v, q.parent, q.name))
  }

  ghost function NextShape(v: Volume, s: Shape, op: Op): Shape
    requires |v.fat| == |v.raw| == CLUSTER_MAP_SIZE && Owed(v, s, op)
  {
    var q := op.q;
    match op
    case Write(_, _, _, _) =>
      if v.fat[q.parent] == EMPTY_ENTRY then s
      else if q.bufferSize == 0 then ShapeAfterFolder(v, s, q.parent)
      else if FirstDead(v.Dir(q.parent)) == |v.Dir(q.parent)| then s
      else ShapeAfterFile(v, s, q)
    case Delete(_) =>
      if q.name == NO_NAME then s
      else
        var t := v.Dir(q.parent);
        var i := FirstNamed(t, q.name);
        if i < |t| && (t[i].filesize > 0 || (ClusterNo(t[i]) < |v.raw| && !HasEntries(v.Dir(ClusterNo(t[i])))))
        then ShapeAfterDelete(v, s, q.parent, i)
        else s
    case _ => s
  }

  // -- Reading the abstraction --

  lemma AbsKeys(v: Volume, s: Shape)
    requires Inv(v, s)
    ensures Abs(v, s).Keys == s.depth.Keys
  {
    hide TableOf, TreeInv, HeapInv, CellsOf, Signature, Listing;
    forall d | d in s.depth ensures d in Abs(v, s) { DirAt(v, s, d); }
  }

  lemma AbsAt(v: Volume, s: Shape, d: nat)
    requires Inv(v, s) && d in s.depth
    ensures d < CLUSTER_MAP_SIZE && |v.Dir(d)| == TABLE_SIZE && NamesOk(v.Dir(d))
    ensures d in Abs(v, s) && Abs(v, s)[d] == Listing(v.raw, s.chains, v.Dir(d))
    ensures Abs(v, s)[d].Keys == LiveNames(v.Dir(d))
  {
    hide TableOf, NodeOf, FirstNamed, NamesOk, TreeInv, HeapInv, HeaderOk;
    NamesAt(v, s, d);
    ListingKeys(v.raw, s.chains, v.Dir(d));
  }

  lemma ListingKeys(raw: seq<seq<byte>>, chains: Chains, t: Table)
    ensures Listing(raw, chains, t).Keys == LiveNames(t)
  {
  }

  /** Names of the live entries among the first `n`. */
  ghost function NamesBelow(t: Table, n: nat): set<seq<byte>>
    requires n <= |t|
  {
    if n == 0 then {} else NamesBelow(t, n - 1) + if Live(t[n - 1]) then {t[n - 1].name} else {}
  }

  lemma {:induction false} NamesBelowAre(t: Table, n: nat)
    requires n <= |t|
    ensures forall x :: x in NamesBelow(t, n) ==> exists i :: 0 <= i < n && Live(t[i]) && t[i].name == x
    ensures forall i :: 0 <= i < n && Live(t[i]) ==> t[i].name in NamesBelow(t, n)
  {
    if n > 0 {
      NamesBelowAre(t, n - 1);
    }
  }

  lemma {:induction false} NamesBelowCount(t: Table, n: nat)
    requires NamesOk(t) && n <= |t|
    ensures |NamesBelow(t, n)| <= n
    ensures |NamesBelow(t, n)| == n <==> forall i :: 0 <= i < n ==> Live(t[i])
  {
    if n > 0 {
      NamesBelowCount(t, n - 1);
      if Live(t[n - 1]) {
        NameNotBelow(t, n - 1);
      }
    }
  }

  lemma NameNotBelow(t: Table, n: nat)
    requires NamesOk(t) && n < |t| && Live(t[n])
    ensures t[n].name !in NamesBelow(t, n)
  {
    assert NameOk(t, n);
    NamesBelowAre(t, n);
  }

  /** A directory has a free slot exactly when it has fewer than 64 names. */
  lemma FullIffAllNamed(v: Volume, s: Shape, d: nat)
    requires Inv(v, s) && d in s.depth
    ensures d in Abs(v, s) && d < CLUSTER_MAP_SIZE
    ensures |Abs(v, s)[d]| == TABLE_SIZE <==> FirstDead(v.Dir(d)) == TABLE_SIZE
  {
    hide TableOf, TreeInv, HeapInv, HeaderOk, Abs, Listing, NamesOk, NamesBelow;
    AbsAt(v, s, d);
    var t := v.Dir(d);
    NamesBelowCount(t, |t|);
    NamesBelowAre(t, |t|);
    assert NamesBelow(t, |t|) == LiveNames(t);
  }

  /** What the name of a live entry stands for. */
  lemma NodeAt(v: Volume, s: Shape, d: nat, i: nat)
    requires Inv(v, s) && d in s.depth && d < CLUSTER_MAP_SIZE && i < |v.Dir(d)| && Live(v.Dir(d)[i])
    ensures d in Abs(v, s) && v.Dir(d)[i].name in Abs(v, s)[d]
    ensures FirstNamed(v.Dir(d), v.Dir(d)[i].name) == i && v.Dir(d)[i].name != NO_NAME
    ensures v.Dir(d)[i].filesize == 0 ==>
              Abs(v, s)[d][v.Dir(d)[i].name] == Folder(ClusterNo(v.Dir(d)[i])) && ClusterNo(v.Dir(d)[i]) in s.depth
    ensures v.Dir(d)[i].filesize > 0 ==>
              && i >= 1 && ClusterNo(v.Dir(d)[i]) in s.chains && Walkable(v.fat, ClusterNo(v.Dir(d)[i]))
              && Chain(v.fat, ClusterNo(v.Dir(d)[i])) == s.chains[ClusterNo(v.Dir(d)[i])]
              && |s.chains[ClusterNo(v.Dir(d)[i])]| == Clusters(v.Dir(d)[i].filesize)
              && (forall k :: 0 <= k < |s.chains[ClusterNo(v.Dir(d)[i])]| ==>
                    s.chains[ClusterNo(v.Dir(d)[i])][k] < |v.raw|)
              && |Content(v.raw, s.chains[ClusterNo(v.Dir(d)[i])])| == CLUSTER_SIZE * Clusters(v.Dir(d)[i].filesize)
              && Abs(v, s)[d][v.Dir(d)[i].name]
                 == File(v.Dir(d)[i].ext, Content(v.raw, s.chains[ClusterNo(v.Dir(d)[i])])[..v.Dir(d)[i].filesize])
  {
    hide TableOf, TreeInv, HeapInv, CellsOf, Signature, ClusterNo, FirstNamed, Walkable, Chain, Listing, NamesOk,
      TablesOf;
    var t := v.Dir(d);
    NamesAt(v, s, d);
    DirAt(v, s, d);
    At(TablesOf(v.raw, s.depth.Keys), s, d);
    SearchFindsLive(t, i);
    ListingAt(v.raw, s.chains, t, i);
    AbsKeys(v, s);
    if i >= 1 {
      LiveEntryAt(v, s, d, i);
      if t[i].filesize > 0 {
        ChainApart(v, s, ClusterNo(t[i]));
        ChainWalk.ContentLength(v.raw, s.chains[ClusterNo(t[i])]);
      }
    } else {
      SelfCluster(v, s, d);
    }
    LiveName(t, i);
  }

  lemma LiveName(t: Table, i: nat)
    requires NamesOk(t) && i < |t| && Live(t[i])
    ensures t[i].name != NO_NAME
  {
    assert NameOk(t, i);
  }

  /** A directory's own name stands for its parent, and a parent is never empty. */
  lemma SelfCluster(v: Volume, s: Shape, d: nat)
    requires Inv(v, s) && d in s.depth && d < CLUSTER_MAP_SIZE && |v.Dir(d)| == TABLE_SIZE
    ensures Live(v.Dir(d)[0]) && v.Dir(d)[0].filesize == 0
    ensures ClusterNo(v.Dir(d)[0]) in s.depth && ClusterNo(v.Dir(d)[0]) < CLUSTER_MAP_SIZE
    ensures d != ROOT_CLUSTER_NUMBER ==> HasEntries(v.Dir(ClusterNo(v.Dir(d)[0])))
    ensures d == ROOT_CLUSTER_NUMBER ==> ClusterNo(v.Dir(d)[0]) == d
  {
    hide TableOf, TreeInv, HeapInv, CellsOf, Signature, ClusterNo, NamesOk;
    var ts := TablesOf(v.raw, s.depth.Keys);
    DirAt(v, s, d);
    DepthKeys(ts, s);
    At(ts, s, d);
    if d != ROOT_CLUSTER_NUMBER {
      HomeAt(ts, s, d);
      DirAt(v, s, s.home[d].0);
      assert Live(v.Dir(s.home[d].0)[s.home[d].1]);
    }
  }

  /** A name that is not stale is found in the table exactly when the plain model has it. */
  lemma NameKnown(v: Volume, s: Shape, d: nat, name: Name)
    requires Inv(v, s) && d in s.depth && d < CLUSTER_MAP_SIZE && NotStale(v, d, name)
    ensures d in Abs(v, s)
    ensures name in Abs(v, s)[d] <==> FirstNamed(v.Dir(d), name) < |v.Dir(d)|
  {
    hide TableOf, TreeInv, HeapInv, HeaderOk, Abs, Listing;
    AbsAt(v, s, d);
    var t, i := v.Dir(d), FirstNamed(v.Dir(d), name);
    if i < |t| { assert t[i].name in LiveNames(t); }
    if name in LiveNames(t) { var k := ListedIsLive(t, name); }
  }

  lemma OnlySelf(t: Table)
    requires NamesOk(t) && 0 < |t| && Live(t[0])
    ensures t[0].name in LiveNames(t)
    ensures |LiveNames(t)| == 1 <==> !HasEntries(t)
  {
    hide FirstNamed, NamesOk;
    if HasEntries(t) {
      var k :| 1 <= k < |t| && Live(t[k]);
      SearchFindsLive(t, k);
      SearchFindsLive(t, 0);
      SubsetSize({t[0].name, t[k].name}, LiveNames(t));
    } else {
      assert LiveNames(t) == {t[0].name};
    }
  }

  /** The driver finds a folder empty exactly when the plain model has only its own name. */
  lemma EmptyIffNoEntries(v: Volume, s: Shape, d: nat)
    requires Inv(v, s) && d in s.depth && d < CLUSTER_MAP_SIZE
    ensures d in Abs(v, s) && (Empty(Abs(v, s)[d]) <==> !HasEntries(v.Dir(d)))
  {
    hide TableOf, TreeInv, HeapInv, HeaderOk, Abs, Listing, NamesOk, LiveNames, HasEntries, ClusterNo;
    AbsAt(v, s, d);
    SelfCluster(v, s, d);
    NodeAt(v, s, d, 0);
    OnlySelf(v.Dir(d));
    var dir := Abs(v, s)[d];
    if |dir| == 1 {
      SoleName(dir.Keys, v.Dir(d)[0].name);
    }
  }

  lemma SoleName(names: set<seq<byte>>, n: seq<byte>)
    requires |names| == 1 && n in names
    ensures names == {n}
  {
    assert |names - {n}| == 0;
  }

  lemma SubsetSize<T>(a: set<T>, b: set<T>)
    requires a <= b
    ensures |a| <= |b|
  {
    assert b == a + (b - a);
  }

  // -- One call --

  ghost predicate Refines(v: Volume, s: Shape, op: Op)
    requires v.Shaped() && Owed(v, s, op)
  {
    && Ready(v, op)
    && Inv(Next(v, op), NextShape(v, s, op))
    && SpecStep(Abs(v, s), op, Abs(Next(v, op), NextShape(v, s, op)), Answer(v, op))
  }

  lemma WriteFileRefines(v: Volume, s: Shape, op: Op)
    requires Inv(v, s) && op.Write? && op.q.bufferSize > 0 && Owed(v, s, op) && v.fat[op.q.parent] != EMPTY_ENTRY
    ensures Refines(v, s, op)
  {
    hide TableOf, TreeInv, HeapInv, HeaderOk, Abs, FirstDead, FileWritten, Free, Clusters, Picked;
    FullIffAllNamed(v, s, op.q.parent);
    AbsAt(v, s, op.q.parent);
    if FirstDead(v.Dir(op.q.parent)) < TABLE_SIZE {
      FileWriteKeepsInv(v, s, op.q, op.buf);
      FileWriteAdds(v, s, op.q, op.buf);
    } else {
      FullWrite(v, op.q, op.buf);
    }
  }

  lemma FullWrite(v: Volume, q: Request, buf: seq<byte>)
    requires v.Shaped() && WriteReady(v, q, |buf|) && q.bufferSize > 0 && v.fat[q.parent] != EMPTY_ENTRY
    requires FirstDead(v.Dir(q.parent)) == TABLE_SIZE
    ensures FileWritten(v, q, buf) == Outcome(v, -1)
  {
  }

  lemma WriteFolderRefines(v: Volume, s: Shape, op: Op)
    requires Inv(v, s) && op.Write? && op.q.bufferSize == 0 && Owed(v, s, op) && v.fat[op.q.parent] != EMPTY_ENTRY
    ensures Refines(v, s, op)
  {
    hide TableOf, TreeInv, HeapInv, HeaderOk, Abs, FirstDead, FolderWritten, Free, Clusters;
    FolderWriteKeepsInv(v, s, op.q, op.stack, op.selfStack);
    FolderWriteAdds(v, s, op.q, op.stack, op.selfStack);
  }

  lemma WriteNowhereRefines(v: Volume, s: Shape, op: Op)
    requires Inv(v, s) && op.Write? && Owed(v, s, op) && v.fat[op.q.parent] == EMPTY_ENTRY
    ensures Refines(v, s, op)
  {
    hide TableOf, TreeInv, HeapInv, HeaderOk, Abs, FirstDead, Free;
    AbsKeys(v, s);
    if op.q.parent in s.depth { DirAt(v, s, op.q.parent); }
  }

  lemma DeleteRefines(v: Volume, s: Shape, op: Op)
    requires Inv(v, s) && op.Delete? && Owed(v, s, op)
    ensures Refines(v, s, op)
  {
    hide TableOf, TreeInv, HeapInv, HeaderOk, Abs, FirstNamed, FileDeleted, FolderDeleted, ShapeAfterDelete,
      HasEntries, ClusterNo, Walkable, Live, Clusters, Empty;
    var q := op.q;
    if q.name != NO_NAME {
      NameKnown(v, s, q.parent, q.name);
      AbsAt(v, s, q.parent);
      var t, i := v.Dir(q.parent), FirstNamed(v.Dir(q.parent), q.name);
      if i < |t| {
        NodeAt(v, s, q.parent, i);
        if t[i].filesize > 0 {
          FileDeleteKeepsInv(v, s, q.parent, i);
          FileDeleteRemoves(v, s, q.parent, i);
        } else {
          FolderDeleteRefines(v, s, q.parent, i);
        }
      }
    }
  }

  /** The folder branch: a child is dropped when empty; a directory's own name finds its
      parent, which is not. */
  lemma FolderDeleteRefines(v: Volume, s: Shape, d: nat, i: nat)
    requires Inv(v, s) && d in s.depth && d < CLUSTER_MAP_SIZE && i < |v.Dir(d)| && Live(v.Dir(d)[i])
    requires v.Dir(d)[i].filesize == 0 && (d == ROOT_CLUSTER_NUMBER && i == 0 ==> HasEntries(v.Dir(d)))
    ensures var c := ClusterNo(v.Dir(d)[i]);
            && c < CLUSTER_MAP_SIZE && c in Abs(v, s) && d in Abs(v, s)
            && (Empty(Abs(v, s)[c]) <==> !HasEntries(v.Dir(c)))
            && (!HasEntries(v.Dir(c)) ==>
                  && Inv(FolderDeleted(v, d, i), ShapeAfterDelete(v, s, d, i))
                  && Abs(FolderDeleted(v, d, i), ShapeAfterDelete(v, s, d, i))
                     == (Abs(v, s) - {c})[d := Abs(v, s)[d] - {v.Dir(d)[i].name}])
  {
    hide TableOf, TreeInv, HeapInv, HeaderOk, Abs, FolderDeleted, ShapeAfterDelete, HasEntries, ClusterNo, Live, Empty;
    NodeAt(v, s, d, i);
    AbsAt(v, s, d);
    var c := ClusterNo(v.Dir(d)[i]);
    AbsAt(v, s, c);
    EmptyIffNoEntries(v, s, c);
    if i == 0 {
      SelfCluster(v, s, d);
    } else if !HasEntries(v.Dir(c)) {
      FolderDeleteKeepsInv(v, s, d, i);
      FolderDeleteRemoves(v, s, d, i);
    }
  }

  lemma ReadFileRefines(v: Volume, s: Shape, op: Op)
    requires Inv(v, s) && op.ReadFile? && Owed(v, s, op)
    ensures Refines(v, s, op)
  {
    hide TableOf, TreeInv, HeapInv, HeaderOk, Abs, FirstNamed, ClusterNo, Walkable, Chain, Live, Content, RoomFor,
      FileAnswer;
    var q := op.q;
    if q.name != NO_NAME {
      NameKnown(v, s, q.parent, q.name);
      var t, i := v.Dir(q.parent), FirstNamed(v.Dir(q.parent), q.name);
      if i < |t| {
        NodeAt(v, s, q.parent, i);
        if t[i].filesize > 0 {
          RoomAnswer(v.raw, s.chains[ClusterNo(t[i])], t[i].filesize, q);
        }
      }
      assert Content(v.raw, []) == [] by { EmptyContent(v.raw); }
    } else {
      EmptyContent(v.raw);
    }
  }

  lemma EmptyContent(raw: seq<seq<byte>>)
    ensures Content(raw, []) == []
  {
  }

  lemma {:induction false} ContentPrefix(raw: seq<seq<byte>>, cells: seq<nat>, n: nat)
    requires forall k :: 0 <= k < |cells| ==> cells[k] < |raw|
    requires n <= |cells|
    ensures Content(raw, cells[..n]) <= Content(raw, cells)
    decreases |cells|
  {
    if n < |cells| {
      var most := cells[..|cells| - 1];
      ContentPrefix(raw, most, n);
      assert most[..n] == cells[..n];
    } else {
      assert cells[..n] == cells;
    }
  }

  /** What `read` delivers of a file of `size` bytes stored in `cells`. */
  lemma RoomAnswer(raw: seq<seq<byte>>, cells: seq<nat>, size: nat, q: Request)
    requires SizedClusters(raw) && 0 < size && |cells| == Clusters(size)
    requires forall k :: 0 <= k < |cells| ==> cells[k] < |raw|
    ensures size <= |Content(raw, cells)|
    ensures FileAnswer(Content(raw, cells)[..size], q.bufferSize,
                       Reply(RoomFor(q, cells).code, Content(raw, RoomFor(q, cells).cells)))
  {
    hide Content;
    ChainWalk.ContentLength(raw, cells);
    var room := q.bufferSize / CLUSTER_MAP_SIZE + 1;
    if room < |cells| {
      ChainWalk.ContentLength(raw, cells[..room]);
      ContentPrefix(raw, cells, room);
      var got := Content(raw, cells[..room]);
      assert |got| == CLUSTER_SIZE * room <= size;
      assert got == Content(raw, cells)[..CLUSTER_SIZE * room] == Content(raw, cells)[..size][..CLUSTER_SIZE * room];
    }
  }

  lemma DirShows(v: Volume, s: Shape, d: nat)
    requires Inv(v, s) && d in s.depth
    ensures d in Abs(v, s) && d < CLUSTER_MAP_SIZE && Shows(v.Dir(d), Abs(v, s)[d])
  {
    hide TableOf, TreeInv, HeapInv, HeaderOk, Abs, FirstNamed, ClusterNo, Walkable, Chain, Live, Content, Clusters,
      Listing, LiveNames, NamesOk, TablesOf;
    AbsAt(v, s, d);
    forall i | 0 <= i < |v.Dir(d)| && Live(v.Dir(d)[i])
      ensures v.Dir(d)[i].name in Abs(v, s)[d]
      ensures EntryShows(v.Dir(d)[i], Abs(v, s)[d][v.Dir(d)[i].name])
      ensures i > 0 ==> (Abs(v, s)[d][v.Dir(d)[i].name].Folder? <==> v.Dir(d)[i].attribute == ATR_DIRECTORY)
    {
      NodeAt(v, s, d, i);
      if i > 0 { LiveEntryAt(v, s, d, i); }
    }
  }

  lemma ReadFolderRefines(v: Volume, s: Shape, op: Op)
    requires Inv(v, s) && op.ReadFolder? && Owed(v, s, op)
    ensures Refines(v, s, op)
  {
    hide TableOf, TreeInv, HeapInv, HeaderOk, Abs, FirstNamed, ClusterNo, Walkable, Chain, Live, Content, Clusters,
      Listing, LiveNames, NamesOk, Shows;
    var q := op.q;
    if q.bufferSize == CLUSTER_SIZE {
      NameKnown(v, s, q.parent, q.name);
      AbsKeys(v, s);
      var t, i := v.Dir(q.parent), FirstNamed(v.Dir(q.parent), q.name);
      if i < |t| {
        NodeAt(v, s, q.parent, i);
        if t[i].filesize == 0 { DirShows(v, s, ClusterNo(t[i])); }
      }
    }
  }

  /** Every call its caller may make answers as the plain model says and changes the names
      as it says, and leaves the volume in order. */
  lemma CallRefines(v: Volume, s: Shape, op: Op)
    requires Inv(v, s) && Owed(v, s, op)
    ensures Refines(v, s, op)
  {
    hide TreeInv, HeapInv, HeaderOk, Refines, NotStale, FreshName, WriteReady;
    match op {
      case Write(q, _, _, _) =>
        if v.fat[q.parent] == EMPTY_ENTRY { WriteNowhereRefines(v, s, op); }
        else if q.bufferSize == 0 { WriteFolderRefines(v, s, op); }
        else { WriteFileRefines(v, s, op); }
      case Delete(_) => DeleteRefines(v, s, op);
      case ReadFile(_) => ReadFileRefines(v, s, op);
      case ReadFolder(_) => ReadFolderRefines(v, s, op);
    }
  }
}
