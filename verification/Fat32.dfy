/** The file system driver: cached FAT and directory buffer updated in place, disk
    clusters overwritten. Every operation computes what `Volume` says. */
module Fat32 {
  import opened Layout
  import opened Volume
  import opened DiskImage
  import opened FileScan
  import opened ChainWalk

  ghost function Bytes(buf: array<byte>): (b: seq<byte>)
    reads buf
    ensures |b| == buf.Length
  {
    buf[..]
  }

  class Driver {
    const disk: Disk
    const clusterMap: array<uint32>
    const dirTableBuf: array<Entry>

    ghost predicate Valid() {
      && disk.Valid()
      && clusterMap.Length == CLUSTER_MAP_SIZE
      && dirTableBuf.Length == TABLE_SIZE
    }

    ghost function Fat(): (fat: seq<uint32>)
      reads clusterMap
      ensures |fat| == clusterMap.Length
      ensures forall c :: 0 <= c < |fat| ==> fat[c] == clusterMap[c]
    {
      clusterMap[..]
    }

    ghost function DirBuf(): (t: Table)
      reads dirTableBuf
      ensures |t| == dirTableBuf.Length
    {
      dirTableBuf[..]
    }

    ghost function Vol(): (v: Volume)
      requires Valid()
      reads clusterMap, disk.image
      ensures v.Shaped()
    {
      Volume(Fat(), disk.Raw())
    }

    /** The driver state before anything is initialised: all zero. */
    constructor (disk: Disk)
      requires disk.Valid()
      ensures Valid() && this.disk == disk
      ensures fresh(clusterMap) && fresh(dirTableBuf)
      ensures forall c :: 0 <= c < CLUSTER_MAP_SIZE ==> clusterMap[c] == EMPTY_ENTRY
    {
      this.disk := disk;
      clusterMap := new uint32[CLUSTER_MAP_SIZE](_ => EMPTY_ENTRY);
      dirTableBuf := new Entry[TABLE_SIZE](_ => ZERO_ENTRY);
    }

    // -- Structures to and from clusters --

    method ReadTable(cluster: nat) returns (t: Table)
      requires Valid() && cluster < CLUSTER_MAP_SIZE
      ensures t == Vol().Dir(cluster) && |t| == TABLE_SIZE
    {
      var buf := new byte[CLUSTER_SIZE](_ => 0);
      disk.ReadClusters(buf, 0, cluster);
      assert buf[..] == disk.Raw()[cluster];
      t := TableOf(buf[..]);
    }

    method WriteTable(t: Table, cluster: nat)
      requires Valid() && cluster < CLUSTER_MAP_SIZE && |t| == TABLE_SIZE
      modifies disk.image
      ensures disk.Tail() == old(disk.Tail())
      ensures disk.Raw() == old(disk.Raw())[cluster := TableBytes(t)]
    {
      disk.WriteClusters(TableBytes(t), cluster);
    }

    method WriteFat()
      requires Valid()
      modifies disk.image
      ensures disk.Tail() == old(disk.Tail())
      ensures disk.Raw() == old(disk.Raw())[FAT_CLUSTER_NUMBER := CellBytes(Fat())]
    {
      disk.WriteClusters(CellBytes(clusterMap[..]), FAT_CLUSTER_NUMBER);
    }

    method LoadDirTableBuf(cluster: nat)
      requires Valid() && cluster < CLUSTER_MAP_SIZE
      modifies dirTableBuf
      ensures dirTableBuf[..] == Vol().Dir(cluster)
    {
      var t := ReadTable(cluster);
      forall i | 0 <= i < TABLE_SIZE {
        dirTableBuf[i] := t[i];
      }
    }

    /** Puts `e` in the first slot of the directory buffer that is not live. */
    method PlaceEntry(e: Entry) returns (placed: bool)
      requires Valid()
      modifies dirTableBuf
      ensures placed <==> FirstDead(old(dirTableBuf[..])) < TABLE_SIZE
      ensures dirTableBuf[..] == if placed then old(dirTableBuf[..])[FirstDead(old(dirTableBuf[..])) := e]
                                 else old(dirTableBuf[..])
    {
      ghost var t := dirTableBuf[..];
      placed := false;
      for j := 0 to TABLE_SIZE
        invariant !placed && dirTableBuf[..] == t
        invariant FirstDead(t) == FirstDead(t, j)
      {
        if dirTableBuf[j].userAttribute != UATTR_NOT_EMPTY {
          dirTableBuf[j] := e;
          placed := true;
          break;
        }
      }
    }

    // -- Start-up --

    method IsEmptyStorage() returns (empty: bool)
      requires Valid()
      ensures empty <==> disk.Raw()[0][..BLOCK_SIZE] != Signature()
    {
      var bootSector := new byte[BLOCK_SIZE](_ => 0);
      disk.ReadBlocks(bootSector, 0, 0, 1);
      assert bootSector[..] == disk.Raw()[0][..BLOCK_SIZE];
      empty := bootSector[..] != Signature();
    }

    method Create(stack: Entry)
      requires Valid()
      modifies clusterMap, dirTableBuf, disk.image
      ensures disk.Tail() == old(disk.Tail())
      ensures Vol() == Formatted(old(Vol()), stack) && DirBuf() == Vol().Dir(ROOT_CLUSTER_NUMBER)
    {
      ghost var raw := disk.Raw();
      disk.WriteBlocks(Signature(), 0, 1);
      ClustersApart(old(disk.image[..]), Signature() + raw[0][BLOCK_SIZE..], 0, disk.image[..]);
      assert disk.Raw() == raw[0 := Signature() + raw[0][BLOCK_SIZE..]];
      clusterMap[0] := CLUSTER_0_VALUE;
      clusterMap[1] := CLUSTER_1_VALUE;
      clusterMap[2] := END_OF_FILE;
      WriteFat();
      var t := NewTable(stack, ROOT_NAME, ROOT_CLUSTER_NUMBER);
      forall i | 0 <= i < TABLE_SIZE {
        dirTableBuf[i] := t[i];
      }
      assert dirTableBuf[..] == t;
      WriteTable(dirTableBuf[..], ROOT_CLUSTER_NUMBER);
      TableRoundTrip(t);
    }

    method Start(stack: Entry)
      requires Valid()
      modifies clusterMap, dirTableBuf, disk.image
      ensures disk.Tail() == old(disk.Tail())
      ensures Vol() == Initialized(old(Vol()), stack) && DirBuf() == Vol().Dir(ROOT_CLUSTER_NUMBER)
    {
      var empty := IsEmptyStorage();
      if empty {
        Create(stack);
      } else {
        var buf := new byte[CLUSTER_SIZE](_ => 0);
        disk.ReadClusters(buf, 0, FAT_CLUSTER_NUMBER);
        assert buf[..] == disk.Raw()[FAT_CLUSTER_NUMBER];
        var fat := CellsOf(buf[..]);
        forall c | 0 <= c < CLUSTER_MAP_SIZE {
          clusterMap[c] := fat[c];
        }
        LoadDirTableBuf(ROOT_CLUSTER_NUMBER);
      }
    }

    // -- Write --

    method WriteFolder(q: Request, stack: Entry, selfStack: Entry) returns (code: int)
      requires Valid() && q.bufferSize == 0 && WriteReady(Vol(), q, 0)
      modifies clusterMap, dirTableBuf, disk.image
      ensures disk.Tail() == old(disk.Tail())
      ensures FolderWritten(old(Vol()), q, stack, selfStack) == Outcome(Vol(), code)
    {
      ghost var v0 := Vol();
      if clusterMap[q.parent] == EMPTY_ENTRY {
        return 2;
      }
      LoadDirTableBuf(q.parent);
      var newFolder := NewTable(selfStack, q.name, q.parent);
      var slotAvailable := false;
      for i := ROOT_CLUSTER_NUMBER to CLUSTER_SIZE
        invariant disk.Tail() == old(disk.Tail())
        invariant !slotAvailable && Vol() == v0 && dirTableBuf[..] == v0.Dir(q.parent)
        invariant Free(v0.fat) == Free(v0.fat, i)
      {
        if clusterMap[i] == EMPTY_ENTRY {
          slotAvailable := true;
          assert Free(v0.fat)[0] == i;
          var placed := PlaceEntry(FolderEntry(stack, q.name, i));
          WriteTable(newFolder, i);
          clusterMap[i] := END_OF_FILE;
          WriteFat();
          WriteTable(dirTableBuf[..], q.parent);
          break;
        }
      }
      if !slotAvailable {
        return -1;
      }
      return 0;
    }

    /** One data cluster: cleared, then given its chunk of the buffer. */
    method WriteData(buf: array<byte>, k: nat, i: nat)
      requires Valid() && i < CLUSTER_MAP_SIZE && CLUSTER_SIZE * (k + 1) <= buf.Length
      requires buf != disk.image
      modifies disk.image
      ensures disk.Tail() == old(disk.Tail())
      ensures disk.Raw() == old(disk.Raw())[i := Chunk(Bytes(buf), k)]
    {
      disk.WriteClusters(Zeros(), i);
      disk.WriteClusters(buf[CLUSTER_SIZE * k..CLUSTER_SIZE * k + CLUSTER_SIZE], i);
    }

    /** The work on one free cell `i`: pad the last chunk, write it, link the cell before,
        and close the chain when it is the last. */
    method PutCluster(q: Request, buf: array<byte>, written: nat, clusterNeed: nat, clustBefore: nat, i: nat)
      requires Valid() && buf != disk.image && i < CLUSTER_MAP_SIZE && clustBefore < CLUSTER_MAP_SIZE
      requires written < clusterNeed == Clusters(q.bufferSize) && CLUSTER_SIZE * clusterNeed <= buf.Length
      modifies clusterMap, disk.image, buf
      ensures disk.Tail() == old(disk.Tail())
      ensures Bytes(buf) ==
              if written + 1 == clusterNeed then Padded(old(Bytes(buf)), q.bufferSize, i) else old(Bytes(buf))
      ensures Fat() ==
              var linked := if written > 0 then old(Fat())[clustBefore := i] else old(Fat());
              if written + 1 == clusterNeed then linked[i := END_OF_FILE] else linked
      ensures disk.Raw() ==
              var stored := old(disk.Raw())[i := Chunk(Bytes(buf), written)];
              if written + 1 == clusterNeed then stored[FAT_CLUSTER_NUMBER := CellBytes(Fat())] else stored
    {
      if written + 1 == clusterNeed {
        forall k | q.bufferSize <= k < CLUSTER_SIZE * (written + 1) {
          buf[k] := i % 0x100;
        }
        assert Bytes(buf) == Padded(old(Bytes(buf)), q.bufferSize, i);
      }
      WriteData(buf, written, i);
      if written > 0 {
        clusterMap[clustBefore] := i;
      }
      if written + 1 == clusterNeed {
        clusterMap[i] := END_OF_FILE;
        WriteFat();
      }
    }

    /** The first step of a new file: its entry goes to a slot of the parent. */
    method EnterFile(q: Request, i: nat) returns (slotAvailable: bool)
      requires Valid() && q.parent < CLUSTER_MAP_SIZE && i < CLUSTER_MAP_SIZE
      requires DirBuf() == TableOf(disk.Raw()[q.parent])
      modifies dirTableBuf, disk.image
      ensures disk.Tail() == old(disk.Tail())
      ensures slotAvailable <==> FirstDead(TableOf(old(disk.Raw())[q.parent])) < TABLE_SIZE
      ensures disk.Raw() == if slotAvailable then Entered(old(disk.Raw()), q, i) else old(disk.Raw())
    {
      slotAvailable := PlaceEntry(FileEntry(q.name, q.ext, i, q.bufferSize));
      if slotAvailable {
        WriteTable(dirTableBuf[..], q.parent);
      }
    }

    /** A free cell of the scan filled: the scan goes on, or the file is complete. */
    method FillCell(q: Request, buf: array<byte>, written: nat, clusterNeed: nat, clustBefore: nat, i: nat,
                    ghost v: Volume, ghost cells: seq<nat>)
      requires Valid() && buf != disk.image && v.Shaped() && i < CLUSTER_MAP_SIZE
      requires q.bufferSize > 0 && WriteReady(v, q, buf.Length) && clusterNeed == Clusters(q.bufferSize)
      requires v.fat[q.parent] != EMPTY_ENTRY && FirstDead(v.Dir(q.parent)) < TABLE_SIZE
      requires written == |cells| < clusterNeed && (forall k :: 0 <= k < |cells| ==> cells[k] < CLUSTER_MAP_SIZE)
      requires clustBefore < CLUSTER_MAP_SIZE && (cells != [] ==> clustBefore == cells[|cells| - 1])
      requires Scanned(v.fat, i, cells, Fat()) && v.fat[i] == EMPTY_ENTRY
      requires disk.Raw() == Store(Entered(v.raw, q, (cells + [i])[0]), cells, Bytes(buf))
      modifies clusterMap, disk.image, buf
      ensures disk.Tail() == old(disk.Tail())
      ensures written + 1 < clusterNeed ==>
                && Bytes(buf) == old(Bytes(buf))
                && Scanned(v.fat, i + 1, cells + [i], Fat())
                && disk.Raw() == Store(Entered(v.raw, q, (cells + [i])[0]), cells + [i], Bytes(buf))
      ensures written + 1 == clusterNeed ==>
                && Bytes(buf) == Padded(old(Bytes(buf)), q.bufferSize, i)
                && Picked(v, q.bufferSize) == cells + [i]
                && FileWritten(v, q, old(Bytes(buf))) == Outcome(Vol(), 0)
    {
      hide WriteReady, FirstDead, Clusters, Scanned, FileWritten, Store, Thread, Entered, Free, Picked, TableOf,
        TableBytes, CellBytes, Chunk, Padded, Disk.Raw, Disk.Tail, Fat, Bytes;
      ReadyRoom(v, q, buf.Length);
      ghost var buf0, entered := Bytes(buf), Entered(v.raw, q, (cells + [i])[0]);
      ScanStep(v.fat, i, cells, Fat());
      ghost var threaded := if cells == [] then Fat() else Fat()[cells[|cells| - 1] := i];
      PutCluster(q, buf, written, clusterNeed, clustBefore, i);
      if written + 1 < clusterNeed {
        StoreStep(entered, cells, i, buf0);
      } else {
        StoreLast(entered, cells, i, buf0, q.bufferSize);
        ScanEnd(v, q, buf0, i + 1, cells + [i], threaded);
      }
    }

    /** One scan of the map. With enough free cells it completes the file: it never gets
        to the end of the map. */
    method FilePass(q: Request, buf: array<byte>, clusterNeed: nat) returns (code: int, written: nat)
      requires Valid() && buf != disk.image && q.bufferSize > 0 && WriteReady(Vol(), q, buf.Length)
      requires clusterMap[q.parent] != EMPTY_ENTRY && clusterNeed == Clusters(q.bufferSize)
      requires DirBuf() == Vol().Dir(q.parent)
      modifies clusterMap, dirTableBuf, disk.image, buf
      ensures disk.Tail() == old(disk.Tail())
      ensures code == 0 ==> written == clusterNeed
      ensures FileWritten(old(Vol()), q, old(Bytes(buf))) == Outcome(Vol(), code)
      ensures code == 0 ==>
                var cells := Picked(old(Vol()), q.bufferSize);
                Bytes(buf) == Padded(old(Bytes(buf)), q.bufferSize, cells[|cells| - 1])
      ensures code != 0 ==> Bytes(buf) == old(Bytes(buf))
    {
      hide WriteReady, FirstDead, Clusters, Scanned, FileWritten, Store, Thread, Entered, Padded, Free, Picked,
        TableOf, TableBytes, CellBytes, Disk.Raw, Disk.Tail, Fat, Bytes, DirBuf;
      ghost var v, buf0 := Vol(), Bytes(buf);
      ghost var cells: seq<nat> := [];
      written := 0;
      var clustBefore := 0;
      ReadyRoom(v, q, buf.Length);
      ScanStart(v, buf0);
      for i := ROOT_CLUSTER_NUMBER to CLUSTER_SIZE
        invariant |cells| == written < clusterNeed && disk.Tail() == old(disk.Tail())
        invariant Bytes(buf) == buf0
        invariant Scanned(v.fat, i, cells, Fat())
        invariant forall k :: 0 <= k < |cells| ==> cells[k] < CLUSTER_MAP_SIZE
        invariant written == 0 ==> DirBuf() == v.Dir(q.parent) && disk.Raw() == v.raw
        invariant written > 0 ==>
          && FirstDead(v.Dir(q.parent)) < TABLE_SIZE
          && clustBefore == cells[written - 1]
          && disk.Raw() == Store(Entered(v.raw, q, cells[0]), cells, buf0)
      {
        ScanInRange(v.fat, i, cells, Fat());
        if clusterMap[i] == EMPTY_ENTRY {
          if written == 0 {
            var slotAvailable := EnterFile(q, i);
            if !slotAvailable {
              ScanFull(v, q, buf0, i, Fat(), disk.Raw());
              return -1, 0;
            }
            clustBefore := i;
          }
          FillCell(q, buf, written, clusterNeed, clustBefore, i, v, cells);
          cells := cells + [i];
          written := written + 1;
          if written == clusterNeed {
            return 0, written;
          }
          clustBefore := i;
        }
      }
      ScanInRange(v.fat, CLUSTER_SIZE, cells, Fat());
      assert false;
    }

    method WriteFile(q: Request, buf: array<byte>) returns (code: int)
      requires Valid() && buf != disk.image && q.bufferSize > 0 && WriteReady(Vol(), q, buf.Length)
      modifies clusterMap, dirTableBuf, disk.image, buf
      ensures disk.Tail() == old(disk.Tail())
      ensures FileWritten(old(Vol()), q, old(buf[..])) == Outcome(Vol(), code)
      ensures code == 0 ==>
                var cells := Picked(old(Vol()), q.bufferSize);
                buf[..] == Padded(old(buf[..]), q.bufferSize, cells[|cells| - 1])
      ensures code != 0 ==> buf[..] == old(buf[..])
    {
      hide Disk.Tail, Disk.Raw, FilledUp, TableOf;
      if clusterMap[q.parent] == EMPTY_ENTRY {
        return 2;
      }
      LoadDirTableBuf(q.parent);
      var clusterNeed := q.bufferSize / CLUSTER_SIZE;
      if clusterNeed * CLUSTER_SIZE < q.bufferSize {
        clusterNeed := clusterNeed + 1;
      }
      ghost var v, buf0 := Vol(), buf[..];
      var written := 0;
      while written < clusterNeed
        invariant (written == 0 || written == clusterNeed) && disk.Tail() == old(disk.Tail())
        invariant written == 0 ==> Vol() == v && buf[..] == buf0 && dirTableBuf[..] == v.Dir(q.parent)
        invariant written == clusterNeed ==>
          && FileWritten(v, q, buf0) == Outcome(Vol(), 0)
          && var cells := Picked(v, q.bufferSize);
          buf[..] == Padded(buf0, q.bufferSize, cells[|cells| - 1])
      {
        code, written := FilePass(q, buf, clusterNeed);
        if code != 0 {
          return;
        }
      }
      code := 0;
    }

    /** The driver's `write`: a folder when `bufferSize` is zero, else a file. */
    method Write(q: Request, buf: array<byte>, stack: Entry, selfStack: Entry) returns (code: int)
      requires Valid() && buf != disk.image && WriteReady(Vol(), q, buf.Length)
      modifies clusterMap, dirTableBuf, disk.image, buf
      ensures disk.Tail() == old(disk.Tail())
      ensures Written(old(Vol()), q, old(buf[..]), stack, selfStack) == Outcome(Vol(), code)
      ensures buf[..] == BufferAfterWrite(old(Vol()), q, old(buf[..]))
      ensures BufferKept(old(Vol()), q, old(buf[..]), Outcome(Vol(), code), buf[..])
    {
      WriteKeepsBuffer(Vol(), q, buf[..], stack, selfStack);
      if q.bufferSize == 0 {
        code := WriteFolder(q, stack, selfStack);
      } else {
        code := WriteFile(q, buf);
      }
    }

    // -- Delete --

    /** Walks the chain from `head`, freeing each cell and clearing each cluster. */
    method FreeChain(head: nat)
      requires Valid() && Walkable(Fat(), head)
      modifies clusterMap, disk.image
      ensures disk.Tail() == old(disk.Tail())
      ensures Fat() == Release(old(Fat()), Chain(old(Fat()), head))
      ensures disk.Raw() == Wipe(old(disk.Raw()), Chain(old(Fat()), head))
    {
      hide Disk.Tail, Disk.Raw, Fat, Freeing, Walkable, Chain, Release, Wipe;
      ghost var v := Vol();
      ghost var freed: seq<nat> := [];
      var c := head;
      FreeStart(v, head);
      while true
        invariant Freeing(v, head, c, freed, Vol()) && disk.Tail() == old(disk.Tail())
        decreases CLUSTER_MAP_SIZE - c
      {
        FreeStep(v, head, c, freed, Vol());
        var next := clusterMap[c];
        SetCell(c, EMPTY_ENTRY);
        disk.WriteClusters(Zeros(), c);
        freed := freed + [c];
        if next == END_OF_FILE {
          break;
        }
        c := next;
      }
    }

    method SetCell(c: nat, w: uint32)
      requires Valid() && c < CLUSTER_MAP_SIZE
      modifies clusterMap
      ensures Fat() == old(Fat())[c := w]
    {
      clusterMap[c] := w;
    }

    /** Empties slot `index` of the parent's table and frees the folder's cell. */
    method DropFolder(parent: nat, table: Table, index: nat)
      requires Valid() && parent < CLUSTER_MAP_SIZE && index < TABLE_SIZE && table == Vol().Dir(parent)
      requires ClusterNo(table[index]) < CLUSTER_MAP_SIZE
      modifies clusterMap, disk.image
      ensures disk.Tail() == old(disk.Tail())
      ensures Vol() == FolderDeleted(old(Vol()), parent, index)
    {
      hide Disk.Tail, Disk.Raw, Fat, TableOf, TableBytes, CellBytes;
      SetCell(ClusterNo(table[index]), EMPTY_ENTRY);
      WriteFat();
      WriteTable(table[index := table[index].(userAttribute := 0)], parent);
    }

    method DropFile(parent: nat, table: Table, index: nat)
      requires Valid() && parent < CLUSTER_MAP_SIZE && index < TABLE_SIZE && table == Vol().Dir(parent)
      requires Walkable(Fat(), ClusterNo(table[index]))
      modifies clusterMap, disk.image
      ensures disk.Tail() == old(disk.Tail())
      ensures Vol() == FileDeleted(old(Vol()), parent, index)
    {
      hide Disk.Tail, Disk.Raw, Fat, TableOf, TableBytes, CellBytes, Walkable, Chain, Release, Wipe;
      FreeChain(ClusterNo(table[index]));
      WriteFat();
      WriteTable(table[index := ZERO_ENTRY], parent);
    }

    method HasLiveEntry(t: Table) returns (found: bool)
      requires |t| == TABLE_SIZE
      ensures found <==> HasEntries(t)
    {
      for i := 1 to TABLE_SIZE
        invariant forall k :: 1 <= k < i ==> !Live(t[k])
      {
        if t[i].userAttribute == UATTR_NOT_EMPTY {
          assert Live(t[i]);
          return true;
        }
      }
      return false;
    }

    /** The driver's `delete`: the caller's extension picks the branch. */
    method Delete(q: Request) returns (code: int)
      requires Valid() && DeleteReady(Vol(), q)
      modifies clusterMap, disk.image
      ensures disk.Tail() == old(disk.Tail())
      ensures Deleted(old(Vol()), q) == Outcome(Vol(), code)
    {
      hide Disk.Tail, Disk.Raw, Fat, TableOf, Walkable, FolderDeleted, FileDeleted, HasEntries;
      if q.name == NO_NAME {
        return -1;
      }
      var t := ReadTable(q.parent);
      var index := FindName(t, q.name);
      if index == |t| {
        return 1;
      }
      if q.ext == NO_EXT {
        var folder := ReadTable(ClusterNo(t[index]));
        var busy := HasLiveEntry(folder);
        if busy {
          return 2;
        }
        DropFolder(q.parent, t, index);
      } else {
        DropFile(q.parent, t, index);
      }
      return 0;
    }

    /** Linear search of a directory by name. */
    method FindName(t: Table, name: Name) returns (index: nat)
      ensures index == FirstNamed(t, name)
    {
      index := 0;
      while index < |t| && t[index].name != name
        invariant index <= |t| && FirstNamed(t, name) == FirstNamed(t, name, index)
      {
        index := index + 1;
      }
    }

    // -- Read --

    method ReadDirectory(q: Request, buf: array<byte>) returns (code: int)
      requires Valid() && buf != disk.image && buf.Length == CLUSTER_SIZE && ReadDirectoryReady(Vol(), q)
      modifies buf
      ensures code == FolderRead(Vol(), q).code
      ensures buf[..] == if code == 0 then Vol().raw[FolderRead(Vol(), q).cells[0]] else old(buf[..])
    {
      if q.bufferSize != CLUSTER_SIZE {
        return -1;
      }
      var t := ReadTable(q.parent);
      var i := FindName(t, q.name);
      if i == |t| {
        return 2;
      }
      if t[i].filesize != 0 {
        return 1;
      }
      disk.ReadClusters(buf, 0, ClusterNo(t[i]));
      return 0;
    }

    /** Copies the file's clusters to `buf` until the chain ends, or until a count of
        CLUSTER_MAP_SIZE bytes a cluster passes `bufferSize`. */
    method Read(q: Request, buf: array<byte>) returns (code: int)
      requires Valid() && buf != disk.image && ReadReady(Vol(), q)
      requires CLUSTER_SIZE * |FileRead(Vol(), q).cells| <= buf.Length
      modifies buf
      ensures code == FileRead(Vol(), q).code
      ensures var content := Content(Vol().raw, FileRead(Vol(), q).cells);
              |content| <= buf.Length && buf[..] == content + old(buf[..])[|content|..]
    {
      hide Chain, Walkable, RoomFor, TableOf, ClusterNo, FirstNamed;
      if q.name == NO_NAME {
        return -1;
      }
      var t := ReadTable(q.parent);
      var i := FindName(t, q.name);
      if i == |t| {
        return 3;
      }
      if t[i].filesize == 0 {
        return 1;
      }
      code := ReadChain(q, ClusterNo(t[i]), buf);
    }

    method ReadChain(q: Request, head: nat, buf: array<byte>) returns (code: int)
      requires Valid() && buf != disk.image && Walkable(Fat(), head)
      requires CLUSTER_SIZE * |RoomFor(q, Chain(Fat(), head)).cells| <= buf.Length
      modifies buf
      ensures code == RoomFor(q, Chain(Fat(), head)).code
      ensures var cells := RoomFor(q, Chain(Fat(), head)).cells;
              Bytes(buf) == Content(Vol().raw, cells) + old(Bytes(buf))[CLUSTER_SIZE * |cells|..]
    {
      hide Disk.Tail, Disk.Raw, Fat, Reading, Walkable, Chain, Content;
      ghost var v, buf0 := Vol(), Bytes(buf);
      var cluster: nat, clusters: nat := head, 0;
      ReadStart(v, head, buf0);
      while true
        invariant clusters < |Chain(v.fat, head)|
        invariant CLUSTER_MAP_SIZE * (clusters - 1) <= q.bufferSize
        invariant Reading(v, head, cluster, clusters, buf0, Bytes(buf))
        decreases |Chain(v.fat, head)| - clusters
      {
        if clusters * CLUSTER_MAP_SIZE > q.bufferSize {
          ReadStop(v, head, cluster, clusters, buf0, Bytes(buf));
          return 2;
        }
        ReadStep(v, head, cluster, clusters, buf0, Bytes(buf));
        disk.ReadClusters(buf, CLUSTER_SIZE * clusters, cluster);
        cluster := clusterMap[cluster];
        clusters := clusters + 1;
        if cluster == END_OF_FILE {
          return 0;
        }
      }
    }
  }
}
