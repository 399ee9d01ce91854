/** Calls that callers can make, on volumes reached from a formatted disk, at which the
    driver or the shell does harm. Each is the other side of an exact condition. */
module FailingInputs {
  import opened Layout
  import opened Volume
  import opened Heap
  import opened Tree
  import opened Consistency
  import opened Names
  import opened Runs
  import opened RunTheorems
  import opened Space
  import opened Startup
  import opened Reached
  import opened WriteOrder
  import opened Exact
  import opened LeftOvers
  import opened Paths

  // -- A formatted disk --

  /** The root alone, and 509 free cells. */
  ghost predicate JustRoot(f: Volume) {
    && f.Shaped() && Inv(f, RootShape()) && f.fat[ROOT_CLUSTER_NUMBER] == END_OF_FILE && |Free(f.fat)| == 509
    && |f.Dir(ROOT_CLUSTER_NUMBER)| == TABLE_SIZE && FirstDead(f.Dir(ROOT_CLUSTER_NUMBER)) == 1
    && Live(f.Dir(ROOT_CLUSTER_NUMBER)[0]) && f.Dir(ROOT_CLUSTER_NUMBER)[0].name == ROOT_NAME
    && forall k :: 1 <= k < TABLE_SIZE ==> f.Dir(ROOT_CLUSTER_NUMBER)[k] == ZERO_ENTRY
  }

  lemma FormatIsJustRoot(v: Volume, stack: Entry)
    requires v.Shaped() && forall c :: 2 < c < |v.fat| ==> v.fat[c] == EMPTY_ENTRY
    ensures JustRoot(Formatted(v, stack))
  {
    hide TableOf, TableBytes, CellBytes, Signature, TreeInv, HeapInv, HeaderOk, Formatted, Free, NewTable, FirstDead;
    var f, t := Formatted(v, stack), NewTable(stack, ROOT_NAME, ROOT_CLUSTER_NUMBER);
    FormatInv(v, stack);
    FormattedRaw(v, stack);
    FormattedFat(v, stack);
    TableRoundTrip(t);
    RootTable(stack);
    HeapAddsUp(f.fat, RootShape().chains, RootShape().owner);
    OneLength();
  }

  lemma RootTable(stack: Entry)
    ensures var t := NewTable(stack, ROOT_NAME, ROOT_CLUSTER_NUMBER);
            && |t| == TABLE_SIZE && Live(t[0]) && t[0].name == ROOT_NAME && FirstDead(t) == 1
            && forall k :: 1 <= k < TABLE_SIZE ==> t[k] == ZERO_ENTRY
  {
    var t := NewTable(stack, ROOT_NAME, ROOT_CLUSTER_NUMBER);
    assert FirstDead(t, 1) == 1;
  }

  lemma OneLength()
    ensures Sum(Lengths(RootShape().chains)) == 1
  {
    var m := Lengths(RootShape().chains);
    SumWithout(m, ROOT_CLUSTER_NUMBER);
    assert m - {ROOT_CLUSTER_NUMBER} == map[];
  }

  // -- A name written twice --

  /** A file or folder named as the root, written to the root of a formatted disk: the call
      answers 0, "already exist" being no answer of the code's, and leaves no order. */
  lemma RootNameTwice(v: Volume, stack: Entry, q: Request, buf: seq<byte>, stack': Entry, selfStack': Entry)
    requires v.Shaped() && forall c :: 2 < c < |v.fat| ==> v.fat[c] == EMPTY_ENTRY
    requires q.parent == ROOT_CLUSTER_NUMBER && q.name == ROOT_NAME && q.bufferSize <= CLUSTER_SIZE <= |buf|
    ensures var f := Formatted(v, stack);
            && WriteReady(f, q, |buf|) && Written(f, q, buf, stack', selfStack').code == 0
            && !Orderly(Written(f, q, buf, stack', selfStack').vol)
  {
    hide TableOf, TreeInv, HeapInv, HeaderOk, Formatted, FileWritten, FolderWritten, FirstDead, Free, Orderly;
    var f := Formatted(v, stack);
    FormatIsJustRoot(v, stack);
    OneCluster(q.bufferSize);
    Refused(f, q, buf, stack', selfStack');
    if q.bufferSize == 0 {
      FolderWriteOrderlyIff(f, RootShape(), q, stack', selfStack');
    } else {
      FileWriteOrderlyIff(f, RootShape(), q, buf);
    }
  }

  lemma OneCluster(size: nat)
    requires size <= CLUSTER_SIZE
    ensures Clusters(size) == if size == 0 then 0 else 1
  {
  }

  // -- A file taken for a directory --

  /** Write a file, and then something with the file's first cell for a parent: the call
      is not refused as "invalid parent", and where it answers 0, always for a folder, it
      leaves no order. */
  lemma FileTakenForDirectory(v: Volume, s: Shape, q: Request, buf: seq<byte>, r: Request, buf': seq<byte>,
                              stack: Entry, selfStack: Entry)
    requires v.Shaped() && WriteReady(v, q, |buf|) && q.bufferSize > 0 && FreshName(v, s, q.parent, q.name)
    requires FirstDead(v.Dir(q.parent)) < TABLE_SIZE && Clusters(q.bufferSize) <= |Free(v.fat)| && Inv(v, s)
    requires r.parent == Picked(v, q.bufferSize)[0] && WriteReady(FileWritten(v, q, buf).vol, r, |buf'|)
    ensures var w := FileWritten(v, q, buf).vol;
            && w.Shaped() && Inv(w, ShapeAfterFile(v, s, q)) && r.parent !in ShapeAfterFile(v, s, q).depth
            && var o := Written(w, r, buf', stack, selfStack);
               && o.code != 2 && (r.bufferSize == 0 ==> o.code == 0) && (o.code == 0 ==> !Orderly(o.vol))
  {
    hide TableOf, TableBytes, CellBytes, TreeInv, HeapInv, HeaderOk, FileWritten, FolderWritten, FirstDead, Free,
      Orderly, Picked, Clusters, FreeCellsOf, Link, FreshName, FileEntry;
    FileWriteKeepsInv(v, s, q, buf);
    FileWrittenShaped(v, q, buf);
    FreshInDirectory(v, s, q);
    DirAt(v, s, q.parent);
    FileWrittenRaw(v, q, buf);
    var w, z, cells := FileWritten(v, q, buf).vol, ShapeAfterFile(v, s, q), Picked(v, q.bufferSize);
    FreeCellsApart(v, s, cells);
    LinkMakesChain(v.fat, cells);
    ChainInUse(w.fat, cells, cells[0], cells[0]);
    assert z.depth == s.depth by { SameDirectories(v, s, q); }
    Refused(w, r, buf', stack, selfStack);
    NotFresh(w, z, r);
    if r.bufferSize == 0 {
      FolderWriteOrderlyIff(w, z, r, stack, selfStack);
    } else {
      FileWriteOrderlyIff(w, z, r, buf');
    }
  }

  /** A formatted disk, a small file in the root, and a folder made "in" that file. */
  lemma FolderUnderFile(v: Volume, stack: Entry, q: Request, buf: seq<byte>, r: Request, stack': Entry,
                        selfStack': Entry)
    requires v.Shaped() && forall c :: 2 < c < |v.fat| ==> v.fat[c] == EMPTY_ENTRY
    requires q.parent == ROOT_CLUSTER_NUMBER && q.name != NO_NAME && q.name != ROOT_NAME
    requires 0 < q.bufferSize <= CLUSTER_SIZE <= |buf| && r.bufferSize == 0
    ensures var f := Formatted(v, stack);
            && WriteReady(f, q, |buf|) && Clusters(q.bufferSize) <= |Free(f.fat)|
            && var w := FileWritten(f, q, buf).vol;
               && w.Shaped() && Orderly(w)
               && (r.parent == Picked(f, q.bufferSize)[0] ==>
                     && WriteReady(w, r, 0) && FolderWritten(w, r, stack', selfStack').code == 0
                     && !Orderly(FolderWritten(w, r, stack', selfStack').vol))
  {
    hide TableOf, TreeInv, HeapInv, HeaderOk, Formatted, FileWritten, FolderWritten, FirstDead, Free, Thread;
    var f, s := Formatted(v, stack), RootShape();
    FormatIsJustRoot(v, stack);
    OneCluster(q.bufferSize);
    OneCluster(0);
    assert FreshName(f, s, q.parent, q.name);
    FileWriteKeepsInv(f, s, q, buf);
    FileWrittenShaped(f, q, buf);
    FileWrittenRaw(f, q, buf);
    assert Picked(f, q.bufferSize) == [Free(f.fat)[0]];
    OneLinked(f.fat, Free(f.fat)[0]) by { FreeCells(f.fat, ROOT_CLUSTER_NUMBER); }
    FreeAfterTake(f.fat, ROOT_CLUSTER_NUMBER);
    if r.parent == Picked(f, q.bufferSize)[0] {
      FileTakenForDirectory(f, s, q, buf, r, [], stack', selfStack');
    }
  }

  lemma SameDirectories(v: Volume, s: Shape, q: Request)
    requires |v.fat| == |v.raw| == CLUSTER_MAP_SIZE && q.bufferSize > 0 && q.parent < CLUSTER_MAP_SIZE
    requires Clusters(q.bufferSize) <= |Free(v.fat)|
    ensures ShapeAfterFile(v, s, q).depth == s.depth
  {
  }

  lemma NotFresh(v: Volume, s: Shape, q: Request)
    requires q.parent !in s.depth
    ensures !FreshName(v, s, q.parent, q.name)
  {
  }

  // -- A full directory --

  /** Sixty-three short names, none of them the root's. */
  function Letter(k: nat): Name
    requires k < TABLE_SIZE
  {
    [k + 1, 0, 0, 0, 0, 0, 0, 0]
  }

  function Fill(k: nat, buf: seq<byte>): Op
    requires k < TABLE_SIZE
  {
    Write(Request(Letter(k), NO_EXT, ROOT_CLUSTER_NUMBER, CLUSTER_SIZE), buf, ZERO_ENTRY, ZERO_ENTRY)
  }

  /** Files of one cluster written to the root, from the `k`-th on. */
  function Fills(k: nat, buf: seq<byte>): (ops: seq<Op>)
    requires k < TABLE_SIZE
    decreases TABLE_SIZE - k
  {
    if k == TABLE_SIZE - 1 then [] else [Fill(k, buf)] + Fills(k + 1, buf)
  }

  /** The root has its own name and `k` of these. */
  ghost predicate Filled(fs: FileSystem, k: nat)
    requires k < TABLE_SIZE
  {
    && ROOT_CLUSTER_NUMBER in fs && |fs[ROOT_CLUSTER_NUMBER]| == k + 1
    && forall n :: n in fs[ROOT_CLUSTER_NUMBER] ==> n == ROOT_NAME || exists i :: 0 <= i < k && n == Letter(i)
  }

  lemma {:induction false} FreeAfterTake(fat: seq<uint32>, from: nat)
    requires Free(fat, from) != []
    ensures Free(fat, from)[0] < |fat| && from <= Free(fat, from)[0]
    ensures Free(fat[Free(fat, from)[0] := END_OF_FILE], from) == Free(fat, from)[1..]
    decreases |fat| - from
  {
    FreeCells(fat, from);
    var c := Free(fat, from)[0];
    if fat[from] == EMPTY_ENTRY {
      FreeAbove(fat, c, from + 1);
    } else {
      FreeAfterTake(fat, from + 1);
    }
  }

  lemma {:induction false} FreeAbove(fat: seq<uint32>, c: nat, from: nat)
    requires c < |fat| && c < from
    ensures Free(fat[c := END_OF_FILE], from) == Free(fat, from)
    decreases |fat| - from
  {
    if from < |fat| { FreeAbove(fat, c, from + 1); }
  }

  lemma UnlistedIsFresh(v: Volume, s: Shape, d: nat, name: Name)
    requires v.Shaped() && d in s.depth && d in Abs(v, s) && name !in Abs(v, s)[d] && name != NO_NAME && Inv(v, s)
    ensures FreshName(v, s, d, name)
  {
    hide TableOf, TreeInv, HeapInv, HeaderOk, Abs, Listing, NamesOk;
    AbsAt(v, s, d);
  }

  lemma FillOwed(v: Volume, s: Shape, k: nat, buf: seq<byte>)
    requires v.Shaped() && k < TABLE_SIZE - 1 && Filled(Abs(v, s), k) && |Free(v.fat)| >= 1 && |buf| == CLUSTER_SIZE
    requires Inv(v, s)
    ensures Owed(v, s, Fill(k, buf)) && FirstDead(v.Dir(ROOT_CLUSTER_NUMBER)) < TABLE_SIZE
    ensures v.fat[ROOT_CLUSTER_NUMBER] != EMPTY_ENTRY && Letter(k) !in Abs(v, s)[ROOT_CLUSTER_NUMBER]
  {
    hide TableOf, TreeInv, HeapInv, HeaderOk, Abs, Listing, FirstDead, Free, NamesOk;
    AbsKeys(v, s);
    AbsAt(v, s, ROOT_CLUSTER_NUMBER);
    DirAt(v, s, ROOT_CLUSTER_NUMBER);
    FullIffAllNamed(v, s, ROOT_CLUSTER_NUMBER);
    OneCluster(CLUSTER_SIZE);
    assert Letter(k)[1] != ROOT_NAME[1] && forall i :: 0 <= i < k ==> Letter(i)[0] != Letter(k)[0];
    assert Letter(k) != NO_NAME by { assert Letter(k)[0] != NO_NAME[0]; }
    UnlistedIsFresh(v, s, ROOT_CLUSTER_NUMBER, Letter(k));
  }

  lemma FillTakesOne(v: Volume, s: Shape, k: nat, buf: seq<byte>)
    requires v.Shaped() && k < TABLE_SIZE - 1 && Filled(Abs(v, s), k) && |Free(v.fat)| >= 1 && |buf| == CLUSTER_SIZE
    requires Inv(v, s)
    ensures Owed(v, s, Fill(k, buf)) && Ready(v, Fill(k, buf))
    ensures var w, z := Next(v, Fill(k, buf)), NextShape(v, s, Fill(k, buf));
            && w.Shaped() && Inv(w, z) && Filled(Abs(w, z), k + 1) && |Free(w.fat)| == |Free(v.fat)| - 1
  {
    hide TableOf, TableBytes, CellBytes, TreeInv, HeapInv, HeaderOk, Abs, FirstDead, Free, FileWritten, Refines, Filled,
      Owed, NextShape, Thread;
    var op := Fill(k, buf);
    FillOwed(v, s, k, buf);
    CallRefines(v, s, op);
    RefinesFacts(v, s, op);
    var w, z := Next(v, op), NextShape(v, s, op);
    OneCluster(CLUSTER_SIZE);
    FileWrittenRaw(v, op.q, buf);
    assert Picked(v, CLUSTER_SIZE) == [Free(v.fat)[0]];
    OneLinked(v.fat, Free(v.fat)[0]) by { FreeCells(v.fat, ROOT_CLUSTER_NUMBER); }
    FreeAfterTake(v.fat, ROOT_CLUSTER_NUMBER);
    FillNames(Abs(v, s), k, buf, Abs(w, z), Answer(v, op));
  }

  lemma OneLinked(fat: seq<uint32>, c: nat)
    requires |fat| == CLUSTER_MAP_SIZE && c < |fat|
    ensures Link(fat, [c]) == fat[c := END_OF_FILE]
  {
  }

  lemma FillNames(fs: FileSystem, k: nat, buf: seq<byte>, fs': FileSystem, r: Reply)
    requires k < TABLE_SIZE - 1 && Filled(fs, k) && SpecStep(fs, Fill(k, buf), fs', r)
    ensures Filled(fs', k + 1)
  {
    var d := ROOT_CLUSTER_NUMBER;
    assert fs'[d].Keys == fs[d].Keys + {Letter(k)};
    assert |fs'[d]| == |fs'[d].Keys| == |fs[d].Keys| + 1;
  }

  lemma {:induction false} RootFills(v: Volume, s: Shape, k: nat, buf: seq<byte>)
    requires v.Shaped() && k < TABLE_SIZE && Filled(Abs(v, s), k) && |Free(v.fat)| >= TABLE_SIZE - k
    requires |buf| == CLUSTER_SIZE && Inv(v, s)
    ensures AllOwed(v, s, Fills(k, buf))
    ensures var (w, z) := After(v, s, Fills(k, buf));
            && w.Shaped() && Inv(w, z) && Filled(Abs(w, z), TABLE_SIZE - 1) && |Free(w.fat)| >= 1
    decreases TABLE_SIZE - k
  {
    hide TreeInv, HeapInv, HeaderOk, Abs, Owed, Ready, Next, NextShape, Free, Filled, Fill;
    if k < TABLE_SIZE - 1 {
      FillTakesOne(v, s, k, buf);
      RootFills(Next(v, Fill(k, buf)), NextShape(v, s, Fill(k, buf)), k + 1, buf);
      assert Fills(k, buf)[1..] == Fills(k + 1, buf);
    }
  }

  /** Sixty-three files fill the root of a formatted disk. Making a folder there then
      answers 0, lists no name, and leaves no order. */
  lemma FolderInFullRoot(v: Volume, stack: Entry, buf: seq<byte>, q: Request, stack': Entry, selfStack': Entry)
    requires v.Shaped() && forall c :: 2 < c < |v.fat| ==> v.fat[c] == EMPTY_ENTRY
    requires |buf| == CLUSTER_SIZE && q.parent == ROOT_CLUSTER_NUMBER && q.bufferSize == 0
    ensures AllOwed(Formatted(v, stack), RootShape(), Fills(0, buf))
    ensures var (w, z) := After(Formatted(v, stack), RootShape(), Fills(0, buf));
            && w.Shaped() && Inv(w, z) && WriteReady(w, q, 0) && FolderWritten(w, q, stack', selfStack').code == 0
            && !Orderly(FolderWritten(w, q, stack', selfStack').vol)
  {
    hide TableOf, TreeInv, HeapInv, HeaderOk, Formatted, FolderWritten, FirstDead, Free, Orderly, Abs, AllOwed, After,
      Fills;
    var f := Formatted(v, stack);
    FormatInv(v, stack);
    FormatIsJustRoot(v, stack);
    RootFills(f, RootShape(), 0, buf);
    var (w, z) := After(f, RootShape(), Fills(0, buf));
    AbsKeys(w, z);
    DirAt(w, z, ROOT_CLUSTER_NUMBER);
    FullIffAllNamed(w, z, ROOT_CLUSTER_NUMBER);
    OneCluster(0);
    FolderWriteAnswers(w, z, q, stack', selfStack');
    FolderWriteOrderlyIff(w, z, q, stack', selfStack');
  }

  // -- A deleted folder entered --

  /** Make a folder where the shell stands, delete it, and `cd` to it: the shell goes there,
      and no longer stands on the tree. */
  lemma DeletedFolderEntered(v: Volume, s: Shape, p: Path, q: Request, stack: Entry, selfStack: Entry, part: seq<byte>)
    requires v.Shaped() && WriteReady(v, q, 0) && q.bufferSize == 0 && 0 < |part| <= 8 && q.name == Pad(part)
    requires forall i :: 0 <= i < |part| ==> part[i] != 0
    requires PathOk(v, s, p) && q.parent == Last(p)
    requires FreshName(v, s, q.parent, q.name) && FirstDead(v.Dir(q.parent)) < TABLE_SIZE && Inv(v, s)
    requires forall k :: 1 <= k < |v.Dir(q.parent)| ==> !Matches(v.Dir(q.parent)[k], part)
    ensures var u := MadeAndDeleted(v, q, stack, selfStack);
            && u.Shaped() && Inv(u, s) && PathOk(u, s, p) && OnDisk(u, p)
            && Descend(u, p, part).Standing? && !PathOk(u, s, Descend(u, p, part).path)
  {
    hide TableOf, TreeInv, HeapInv, HeaderOk, Abs, FolderWritten, FirstDead, FirstNamed, ClusterNo, MadeAndDeleted,
      LeftEntry, Free, FindFolder, PathOk, Matches, Push;
    FolderLeft(v, s, q, stack, selfStack);
    var u, c := MadeAndDeleted(v, q, stack, selfStack), Free(v.fat)[0];
    PathEnd(v, s, p);
    LeftKeepsPath(v, s, p, q, stack, u);
    LeftEntryIs(stack, q.name, c);
    PadReads(part);
    LeftMatches(LeftEntry(stack, q.name, c), part);
    DescendOnTreeIff(u, s, p, part);
    FirstMatch(v.Dir(q.parent), FirstDead(v.Dir(q.parent)), LeftEntry(stack, q.name, c), part);
  }

  lemma LeftMatches(e: Entry, part: seq<byte>)
    requires 0 < |part| <= 8 && (forall i :: 0 <= i < |part| ==> part[i] != 0)
    requires e.name == Pad(part) && e.attribute == ATR_DIRECTORY
    ensures Matches(e, part)
  {
    hide Pad;
    PadReads(part);
    MatchedName(e, part);
  }

  lemma PadReads(part: seq<byte>)
    requires 0 < |part| <= 8 && forall i :: 0 <= i < |part| ==> part[i] != 0
    ensures IsPadded(Pad(part))
  {
    assert forall i :: 0 <= i < |part| ==> Pad(part)[i] == part[i];
    assert forall i :: |part| <= i < 8 ==> Pad(part)[i] == 0;
  }

  lemma FirstMatch(t: Table, j: nat, e: Entry, part: seq<byte>)
    requires 1 <= j < |t| && Matches(e, part) && forall k :: 1 <= k < |t| ==> !Matches(t[k], part)
    ensures FindFolder(t[j := e], part) == j
  {
    hide Matches;
    MatchedFolder(t[j := e], part);
    assert t[j := e][j] == e;
  }

  lemma LeftKeepsPath(v: Volume, s: Shape, p: Path, q: Request, stack: Entry, u: Volume)
    requires v.Shaped() && q.parent < CLUSTER_MAP_SIZE && Left(v, s, q, stack, u) && PathOk(v, s, p) && Inv(v, s)
    ensures PathOk(u, s, p)
  {
    hide TableOf, TreeInv, HeapInv, HeaderOk, FirstDead, LeftEntry, Free;
    forall i | 0 <= i < |p.clusters| ensures StepOk(u, s, p, i) {
      assert StepOk(v, s, p, i);
      DirAt(v, s, p.clusters[i]);
    }
  }

  /** So from a formatted disk, standing on its root. */
  lemma DeletedFolderEnteredAtRoot(v: Volume, stack: Entry, q: Request, stack': Entry, selfStack': Entry,
                                   part: seq<byte>)
    requires v.Shaped() && forall c :: 2 < c < |v.fat| ==> v.fat[c] == EMPTY_ENTRY
    requires 0 < |part| <= 8 && forall i :: 0 <= i < |part| ==> part[i] != 0
    requires q.parent == ROOT_CLUSTER_NUMBER && q.bufferSize == 0 && q.name == Pad(part) != ROOT_NAME
    ensures var f := Formatted(v, stack);
            && WriteReady(f, q, 0)
            && var u := MadeAndDeleted(f, q, stack', selfStack');
               && u.Shaped() && Inv(u, RootShape()) && OnDisk(u, ROOT_PATH)
               && Descend(u, ROOT_PATH, part).Standing? && !PathOk(u, RootShape(), Descend(u, ROOT_PATH, part).path)
  {
    hide TableOf, TreeInv, HeapInv, HeaderOk, Formatted, FirstDead, Free, MadeAndDeleted, PathOk, Pad, NameLength,
      FindFolder;
    var f := Formatted(v, stack);
    FormatIsJustRoot(v, stack);
    OneCluster(0);
    RootPathOk(f, RootShape());
    PadReads(part);
    BlankNotPadded();
    DeletedFolderEntered(f, RootShape(), ROOT_PATH, q, stack', selfStack', part);
  }
}
