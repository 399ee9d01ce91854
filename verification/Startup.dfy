/** Formatting, mounting, and calls that fail. */
module Startup {
  import opened Layout
  import opened Volume
  import opened Heap
  import opened Tree
  import opened Consistency
  import opened Names
  import opened Reached

  ghost function RootShape(): Shape {
    Shape(map[ROOT_CLUSTER_NUMBER := [ROOT_CLUSTER_NUMBER]], map[ROOT_CLUSTER_NUMBER := ROOT_CLUSTER_NUMBER], map[],
          map[ROOT_CLUSTER_NUMBER := 0])
  }

  lemma FormattedRaw(v: Volume, stack: Entry)
    requires v.Shaped()
    ensures var w := Formatted(v, stack);
            && w.Shaped()
            && w.raw[FAT_CLUSTER_NUMBER] == CellBytes(w.fat)
            && w.raw[ROOT_CLUSTER_NUMBER] == TableBytes(NewTable(stack, ROOT_NAME, ROOT_CLUSTER_NUMBER))
            && w.raw[0][..BLOCK_SIZE] == Signature()
  {
    hide TableBytes, CellBytes, Signature, NewTable;
    assert (Signature() + v.raw[0][BLOCK_SIZE..])[..BLOCK_SIZE] == Signature();
  }

  lemma RootTree(t: Table)
    requires FreshTable(t, ROOT_NAME, ROOT_CLUSTER_NUMBER)
    ensures TreeInv(map[ROOT_CLUSTER_NUMBER := t], RootShape())
  {
    FreshNames(t, ROOT_NAME, ROOT_CLUSTER_NUMBER);
    assert SelfOk(map[ROOT_CLUSTER_NUMBER := t], RootShape(), ROOT_CLUSTER_NUMBER);
    assert TableOk(map[ROOT_CLUSTER_NUMBER := t], RootShape(), ROOT_CLUSTER_NUMBER);
  }

  lemma RootHeap(fat: seq<uint32>)
    requires |fat| == CLUSTER_MAP_SIZE && fat[ROOT_CLUSTER_NUMBER] == END_OF_FILE
    requires forall c :: 2 < c < |fat| ==> fat[c] == EMPTY_ENTRY
    ensures HeapInv(fat, RootShape().chains, RootShape().owner)
  {
    assert LinkOk(fat, [ROOT_CLUSTER_NUMBER], 0);
  }

  /** Formatting with a zeroed driver gives a volume in order, holding the root alone. */
  lemma FormatInv(v: Volume, stack: Entry)
    requires v.Shaped() && forall c :: 2 < c < |v.fat| ==> v.fat[c] == EMPTY_ENTRY
    ensures Inv(Formatted(v, stack), RootShape())
    ensures Abs(Formatted(v, stack), RootShape())
            == map[ROOT_CLUSTER_NUMBER := map[ROOT_NAME := Folder(ROOT_CLUSTER_NUMBER)]]
  {
    hide TableOf, TableBytes, CellBytes, CellsOf, Signature, NewTable, FreshTable, TreeInv, HeapInv, Listing, Formatted;
    var w, t := Formatted(v, stack), NewTable(stack, ROOT_NAME, ROOT_CLUSTER_NUMBER);
    FormattedRaw(v, stack);
    FormattedFat(v, stack);
    CellsRoundTrip(w.fat);
    TableRoundTrip(t);
    NewTableIsFresh(stack, ROOT_NAME, ROOT_CLUSTER_NUMBER);
    RootTree(t);
    RootHeap(w.fat);
    assert TablesOf(w.raw, RootShape().depth.Keys) == map[ROOT_CLUSTER_NUMBER := t];
    FreshListing(w.raw, RootShape().chains, stack, ROOT_NAME, ROOT_CLUSTER_NUMBER);
  }

  lemma FormattedFat(v: Volume, stack: Entry)
    requires v.Shaped()
    ensures var w := Formatted(v, stack);
            && w.Shaped()
            && w.fat[0] == CLUSTER_0_VALUE && w.fat[1] == CLUSTER_1_VALUE && w.fat[2] == END_OF_FILE
            && forall c :: 2 < c < |w.fat| ==> w.fat[c] == v.fat[c]
  {
    hide TableBytes, CellBytes, Signature, NewTable;
  }

  /** The boot block: rows of text, zeros, an end mark. */
  ghost predicate BootBytes(b: seq<byte>)
    requires |b| == 512
  {
    && b[0] == 0x43 && b[1] == 0x6F && b[2] == 0x75 && b[3] == 0x72 && b[4] == 0x73 && b[5] == 0x65
    && b[16] == 0x44 && b[32] == 0x4C && b[48] == 0x4D && b[64] == 0x2D
    && b[75] == 0x32 && b[76] == 0x30 && b[77] == 0x32 && b[78] == 0x34 && b[79] == 10
    && (forall k :: 80 <= k < 510 ==> b[k] == 0) && b[510] == 0x4F && b[511] == 0x6B
  }

  lemma SignatureBytes()
    ensures BootBytes(Signature())
  {
  }

  /** What formatting puts on the disk, byte by byte: the boot block, three reserved cells in
      cluster 1, and in cluster 2 an entry named "root" for cluster 2, marked as a directory
      in use, with nothing behind it but zeros; no other byte changes. */
  lemma FormatBytes(v: Volume, stack: Entry)
    requires v.Shaped()
    ensures var r := Formatted(v, stack).raw;
            && |r| == 512 && |r[0]| == |r[1]| == |r[2]| == 2048
            && BootBytes(r[0][..512]) && r[0][512..] == v.raw[0][512..]
            && r[1][..12] == [0xF0, 0xFF, 0xFF, 0x0F, 0xFF, 0xFF, 0xFF, 0x0F, 0xFF, 0xFF, 0xFF, 0x0F]
            && RootBytes(r[2]) && forall c :: 3 <= c < 512 ==> r[c] == v.raw[c]
  {
    hide TableBytes, CellBytes, NewTable, RootBytes, BootBytes, Signature;
    FormattedRaw(v, stack);
    FormattedFat(v, stack);
    SignatureBytes();
    FirstCells(Formatted(v, stack).fat);
    RootTableBytes(stack);
  }

  ghost predicate RootBytes(b: seq<byte>)
    requires |b| == 2048
  {
    && b[..11] == [0x72, 0x6F, 0x6F, 0x74, 0, 0, 0, 0, 0, 0, 0] && b[11] == 0x10 && b[12] == 0xAA
    && b[20..22] == [0, 0] && b[26..28] == [2, 0] && b[28..32] == [0, 0, 0, 0]
    && forall k :: 32 <= k < 2048 ==> b[k] == 0
  }

  lemma FirstCells(fat: seq<uint32>)
    requires |fat| == 512 && fat[0] == CLUSTER_0_VALUE && fat[1] == CLUSTER_1_VALUE && fat[2] == END_OF_FILE
    ensures CellBytes(fat)[..12] == [0xF0, 0xFF, 0xFF, 0x0F, 0xFF, 0xFF, 0xFF, 0x0F, 0xFF, 0xFF, 0xFF, 0x0F]
  {
    assert WordBytes(0x0FFF_FFF0) == [0xF0, 0xFF, 0xFF, 0x0F] && WordBytes(0x0FFF_FFFF) == [0xFF, 0xFF, 0xFF, 0x0F];
  }

  lemma RootTableBytes(stack: Entry)
    ensures RootBytes(TableBytes(NewTable(stack, ROOT_NAME, ROOT_CLUSTER_NUMBER)))
  {
    hide TableBytes, NewTable, EntryBytes;
    var t := NewTable(stack, ROOT_NAME, ROOT_CLUSTER_NUMBER);
    var b := TableBytes(t);
    TableLayout(t, 0);
    RootEntryBytes(stack);
    var e := EntryBytes(t[0]);
    assert b[0..32] == e;
    assert b[..11] == e[..11] && b[20..22] == e[20..22] && b[26..28] == e[26..28] && b[28..32] == e[28..32];
    assert b[11] == e[11] && b[12] == e[12];
    forall k | 32 <= k < 2048 ensures b[k] == 0 { ZeroInTable(t, k); }
  }

  lemma RootEntryBytes(stack: Entry)
    ensures var e := EntryBytes(NewTable(stack, ROOT_NAME, ROOT_CLUSTER_NUMBER)[0]);
            && e[..11] == [0x72, 0x6F, 0x6F, 0x74, 0, 0, 0, 0, 0, 0, 0] && e[11] == 0x10 && e[12] == 0xAA
            && e[20..22] == [0, 0] && e[26..28] == [2, 0] && e[28..32] == [0, 0, 0, 0]
  {
    hide EntryBytes, NewTable, IsHalf, IsWord;
    EntriesMade(stack, ROOT_NAME, NO_EXT, ROOT_CLUSTER_NUMBER, 0);
    var t := NewTable(stack, ROOT_NAME, ROOT_CLUSTER_NUMBER)[0];
    EntryLayout(t);
    var e := EntryBytes(t);
    SmallHalf(0, e[20], e[21]);
    SmallHalf(2, e[26], e[27]);
    ZeroWord(e[28], e[29], e[30], e[31]);
    assert e[..11] == e[0..8] + e[8..11] == ROOT_NAME + [0, 0, 0];
  }

  lemma SmallHalf(h: nat, b0: byte, b1: byte)
    requires IsHalf(h, b0, b1) && h < 256
    ensures b0 == h && b1 == 0
  {
  }

  lemma ZeroWord(b0: byte, b1: byte, b2: byte, b3: byte)
    requires IsWord(0, b0, b1, b2, b3)
    ensures b0 == b1 == b2 == b3 == 0
  {
  }

  lemma ZeroInTable(t: Table, k: nat)
    requires |t| == 64 && 32 <= k < 2048 && forall i :: 1 <= i < |t| ==> t[i] == ZERO_ENTRY
    ensures TableBytes(t)[k] == 0
  {
    hide TableBytes, EntryBytes;
    TableLayout(t, k / 32);
    ZeroEntryBytes();
    assert TableBytes(t)[k] == TableBytes(t)[32 * (k / 32)..32 * (k / 32) + 32][k % 32];
  }

  lemma ZeroEntryBytes()
    ensures forall k :: 0 <= k < 32 ==> EntryBytes(ZERO_ENTRY)[k] == 0
  {
  }

  /** When the root has no entries it is the only directory. */
  lemma {:induction false} OnlyRoot(w: Volume, z: Shape, d: nat)
    requires Inv(w, z) && ROOT_CLUSTER_NUMBER < |w.raw| && !HasEntries(w.Dir(ROOT_CLUSTER_NUMBER)) && d in z.depth
    ensures d == ROOT_CLUSTER_NUMBER
    decreases z.depth[d]
  {
    hide TableOf, TreeInv, HeapInv, HeaderOk, ClusterNo, NamesOk;
    if d != ROOT_CLUSTER_NUMBER {
      var ts := TablesOf(w.raw, z.depth.Keys);
      DirAt(w, z, d);
      At(ts, z, d);
      HomeAt(ts, z, d);
      DepthKeys(ts, z);
      DirAt(w, z, z.home[d].0);
      OnlyRoot(w, z, z.home[d].0);
    }
  }

  lemma OnlyRootUsed(w: Volume, z: Shape, c: nat)
    requires Inv(w, z) && ROOT_CLUSTER_NUMBER < |w.raw| && !HasEntries(w.Dir(ROOT_CLUSTER_NUMBER))
    requires 2 < c < CLUSTER_MAP_SIZE
    ensures w.fat[c] == EMPTY_ENTRY
  {
    hide TableOf, TreeInv, HeaderOk, ClusterNo, NamesOk;
    var ts := TablesOf(w.raw, z.depth.Keys);
    if w.fat[c] != EMPTY_ENTRY {
      assert OwnerOk(z.chains, z.owner, c);
      var h := z.owner[c];
      RootAndHomes(ts, z);
      DepthKeys(ts, z);
      DirAt(w, z, ROOT_CLUSTER_NUMBER);
      if h != ROOT_CLUSTER_NUMBER {
        HomeAt(ts, z, h);
        OnlyRoot(w, z, z.home[h].0);
      }
    }
  }

  /** A start formats exactly the disks whose first 512 bytes differ from the boot block
      somewhere; of any other only the map is read, and nothing is written. */
  lemma StartFormatsIff(v: Volume, stack: Entry)
    requires v.Shaped()
    ensures if exists k :: 0 <= k < 512 && v.raw[0][k] != Signature()[k]
            then Initialized(v, stack) == Formatted(v, stack)
            else Initialized(v, stack).raw == v.raw && CellBytes(Initialized(v, stack).fat) == v.raw[1]
  {
    hide CellBytes, CellsOf, Signature, Formatted;
    if forall k :: 0 <= k < 512 ==> v.raw[0][k] == Signature()[k] {
      assert v.raw[0][..512] == Signature();
      CellBytesRoundTrip(v.raw[1]);
    } else {
      var k :| 0 <= k < 512 && v.raw[0][k] != Signature()[k];
      assert v.raw[0][..512][k] != Signature()[k];
    }
  }

  /** Formatting gives a volume in order exactly when the driver had no used cell above
      the root's: it leaves those cells alone. */
  lemma FormatOrderlyIff(v: Volume, stack: Entry)
    requires v.Shaped()
    ensures Orderly(Formatted(v, stack)) <==> forall c :: 2 < c < |v.fat| ==> v.fat[c] == EMPTY_ENTRY
  {
    hide TableOf, TableBytes, CellBytes, CellsOf, Signature, NewTable, FreshTable, TreeInv, HeapInv, HeaderOk,
      Formatted;
    var w, t := Formatted(v, stack), NewTable(stack, ROOT_NAME, ROOT_CLUSTER_NUMBER);
    if forall c :: 2 < c < |v.fat| ==> v.fat[c] == EMPTY_ENTRY {
      FormatInv(v, stack);
    }
    FormattedRaw(v, stack);
    FormattedFat(v, stack);
    TableRoundTrip(t);
    RootTableEmpty(stack);
    if Orderly(w) {
      var z :| Inv(w, z);
      forall c | 2 < c < |v.fat| ensures v.fat[c] == EMPTY_ENTRY { OnlyRootUsed(w, z, c); }
    }
  }

  lemma RootTableEmpty(stack: Entry)
    ensures !HasEntries(NewTable(stack, ROOT_NAME, ROOT_CLUSTER_NUMBER))
  {
    NewTableIsFresh(stack, ROOT_NAME, ROOT_CLUSTER_NUMBER);
  }

  /** Mounting a volume in order, whatever the driver had cached, restores the cache and
      changes nothing on disk: the cache is always what cluster 1 holds. */
  lemma MountRestores(v: Volume, s: Shape, cached: seq<uint32>, stack: Entry)
    requires Inv(v, s) && |cached| == CLUSTER_MAP_SIZE
    ensures Initialized(Volume(cached, v.raw), stack) == v
    ensures CellBytes(v.fat) == v.raw[FAT_CLUSTER_NUMBER]
  {
    hide TreeInv, HeapInv, TableOf, CellsOf, CellBytes, Signature;
    CellsRoundTrip(v.fat);
  }

  /** A `write` that answers other than 0 has changed neither the FAT nor the disk. */
  lemma FailedWriteChangesNothing(v: Volume, q: Request, buf: seq<byte>, stack: Entry, selfStack: Entry)
    requires v.Shaped() && WriteReady(v, q, |buf|) && Written(v, q, buf, stack, selfStack).code != 0
    ensures Written(v, q, buf, stack, selfStack).vol == v
  {
    hide TableOf, TableBytes, CellBytes, Free, NewTable;
  }

  /** A `delete` that answers other than 0 has changed neither the FAT nor the disk. */
  lemma FailedDeleteChangesNothing(v: Volume, q: Request)
    requires v.Shaped() && DeleteReady(v, q) && Deleted(v, q).code != 0
    ensures Deleted(v, q).vol == v
  {
    hide TableOf, TableBytes, CellBytes, Walkable, Chain;
  }
}
