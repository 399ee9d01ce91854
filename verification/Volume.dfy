/** What each driver operation does to the cached FAT and the disk, as functions of
    both. `Fat32.Driver` is proved to compute exactly these; the invariants and the
    refinement to a tree of names are proved about them. */
module Volume {
  import opened Layout

  const CLUSTER_0_VALUE: uint32 := 0x0FFF_FFF0
  const CLUSTER_1_VALUE: uint32 := 0x0FFF_FFFF
  const END_OF_FILE: uint32 := 0x0FFF_FFFF
  const EMPTY_ENTRY: uint32 := 0
  const FAT_CLUSTER_NUMBER := 1
  const ROOT_CLUSTER_NUMBER := 2
  const UATTR_NOT_EMPTY: byte := 0xAA
  const ATR_FILE: byte := 0
  const ATR_DIRECTORY: byte := 0x10

  type Table = seq<Entry>

  ghost predicate SizedClusters(raw: seq<seq<byte>>) {
    forall c :: 0 <= c < |raw| ==> |raw[c]| == CLUSTER_SIZE
  }

  /** The cached FAT and the clusters on disk. */
  datatype Volume = Volume(fat: seq<uint32>, raw: seq<seq<byte>>) {
    ghost predicate Shaped() {
      && |fat| == CLUSTER_MAP_SIZE
      && |raw| == CLUSTER_MAP_SIZE
      && SizedClusters(raw)
    }

    function Dir(c: nat): (t: Table)
      requires c < |raw|
      ensures |t| == |raw[c]| / 32
    {
      TableOf(raw[c])
    }
  }

  datatype Request = Request(name: Name, ext: Ext, parent: uint32, bufferSize: uint32)

  /** The new volume and the code returned to the caller. */
  datatype Outcome = Outcome(vol: Volume, code: int)

  predicate Live(e: Entry) {
    e.userAttribute == UATTR_NOT_EMPTY
  }

  /** The slot where a search by name stops: liveness is not looked at. */
  function FirstNamed(t: Table, name: Name, from: nat := 0): (i: nat)
    requires from <= |t|
    ensures from <= i <= |t|
    ensures forall k :: from <= k < i ==> t[k].name != name
    ensures i < |t| ==> t[i].name == name
    decreases |t| - from
  {
    if from == |t| || t[from].name == name then from else FirstNamed(t, name, from + 1)
  }

  /** The slot a new entry goes to. */
  function FirstDead(t: Table, from: nat := 0): (i: nat)
    requires from <= |t|
    ensures from <= i <= |t|
    ensures forall k :: from <= k < i ==> Live(t[k])
    ensures i < |t| ==> !Live(t[i])
    decreases |t| - from
  {
    if from == |t| || !Live(t[from]) then from else FirstDead(t, from + 1)
  }

  /** The free cells from `from` on, in increasing order. */
  function Free(fat: seq<uint32>, from: nat := ROOT_CLUSTER_NUMBER): (cells: seq<nat>)
    decreases |fat| - from
  {
    if from >= |fat| then []
    else if fat[from] == EMPTY_ENTRY then [from] + Free(fat, from + 1)
    else Free(fat, from + 1)
  }

  lemma {:induction false} FreeCells(fat: seq<uint32>, from: nat)
    ensures forall k :: 0 <= k < |Free(fat, from)| ==>
              from <= Free(fat, from)[k] < |fat| && fat[Free(fat, from)[k]] == EMPTY_ENTRY
    ensures Ascending(Free(fat, from))
    decreases |fat| - from
  {
    if from < |fat| {
      FreeCells(fat, from + 1);
    }
  }

  lemma {:induction false} FreeHas(fat: seq<uint32>, from: nat, c: nat)
    requires from <= c < |fat| && fat[c] == EMPTY_ENTRY
    ensures c in Free(fat, from)
    decreases c - from
  {
    if from < c {
      FreeHas(fat, from + 1, c);
    }
  }

  /** Clusters needed for `size` bytes. */
  function Clusters(size: nat): (n: nat)
    ensures CLUSTER_SIZE * n >= size > CLUSTER_SIZE * (n - 1) || n == size == 0
  {
    (size + CLUSTER_SIZE - 1) / CLUSTER_SIZE
  }

  ghost predicate Ascending(cells: seq<nat>) {
    forall j, k :: 0 <= j < k < |cells| ==> cells[j] < cells[k]
  }

  /** The FAT while a chain is being threaded: every cell but the last points on. */
  function Thread(fat: seq<uint32>, cells: seq<nat>): (r: seq<uint32>)
    requires |fat| == CLUSTER_MAP_SIZE
    requires forall k :: 0 <= k < |cells| ==> cells[k] < |fat|
    ensures |r| == |fat|
  {
    var n := |cells|;
    if n <= 1 then fat else Thread(fat, cells[..n - 1])[cells[n - 2] := cells[n - 1]]
  }

  /** The FAT with `cells` made into one chain. */
  function Link(fat: seq<uint32>, cells: seq<nat>): (r: seq<uint32>)
    requires |fat| == CLUSTER_MAP_SIZE && |cells| > 0
    requires forall k :: 0 <= k < |cells| ==> cells[k] < |fat|
    ensures |r| == |fat|
  {
    Thread(fat, cells)[cells[|cells| - 1] := END_OF_FILE]
  }

  /** The chain of clusters that starts at `c` can be walked to its end. */
  predicate Walkable(fat: seq<uint32>, c: nat)
    decreases |fat| - c
  {
    c < |fat| && (fat[c] == END_OF_FILE || (c < fat[c] < |fat| && Walkable(fat, fat[c])))
  }

  function Chain(fat: seq<uint32>, c: nat): (cells: seq<nat>)
    requires Walkable(fat, c)
    ensures |cells| > 0 && cells[0] == c
    ensures forall k :: 0 <= k < |cells| ==> c <= cells[k] < |fat|
    decreases |fat| - c
  {
    if fat[c] == END_OF_FILE then [c] else [c] + Chain(fat, fat[c])
  }

  /** Every cell in `cells` made free. */
  function Release(fat: seq<uint32>, cells: seq<nat>): (r: seq<uint32>)
    requires forall k :: 0 <= k < |cells| ==> cells[k] < |fat|
    ensures |r| == |fat|
    ensures forall c :: 0 <= c < |r| ==> r[c] == if c in cells then EMPTY_ENTRY else fat[c]
  {
    seq(|fat|, c requires 0 <= c < |fat| => if c in cells then EMPTY_ENTRY else fat[c])
  }

  /** Every cluster in `cells` overwritten by zeros. */
  function Wipe(raw: seq<seq<byte>>, cells: seq<nat>): (r: seq<seq<byte>>)
    requires forall k :: 0 <= k < |cells| ==> cells[k] < |raw|
    ensures |r| == |raw|
    ensures forall c :: 0 <= c < |r| ==> r[c] == if c in cells then Zeros() else raw[c]
  {
    seq(|raw|, c requires 0 <= c < |raw| => if c in cells then Zeros() else raw[c])
  }

  function Zeros(): (z: seq<byte>)
    ensures |z| == CLUSTER_SIZE
    ensures forall k :: 0 <= k < |z| ==> z[k] == 0
  {
    seq(CLUSTER_SIZE, _ => 0)
  }

  /** The bytes of `data` that go to its `k`-th cluster. */
  function Chunk(data: seq<byte>, k: nat): (b: seq<byte>)
    requires CLUSTER_SIZE * (k + 1) <= |data|
    ensures |b| == CLUSTER_SIZE
  {
    data[CLUSTER_SIZE * k..CLUSTER_SIZE * k + CLUSTER_SIZE]
  }

  /** The disk with the chunks of `data` written to `cells` in order. */
  function Store(raw: seq<seq<byte>>, cells: seq<nat>, data: seq<byte>): (r: seq<seq<byte>>)
    requires forall k :: 0 <= k < |cells| ==> cells[k] < |raw|
    requires CLUSTER_SIZE * |cells| <= |data|
    requires SizedClusters(raw)
    ensures |r| == |raw| && SizedClusters(r)
  {
    var n := |cells|;
    if n == 0 then raw else Store(raw, cells[..n - 1], data)[cells[n - 1] := Chunk(data, n - 1)]
  }

  /** The bytes read by walking `cells`. */
  function Content(raw: seq<seq<byte>>, cells: seq<nat>): (b: seq<byte>)
    requires forall k :: 0 <= k < |cells| ==> cells[k] < |raw|
  {
    var n := |cells|;
    if n == 0 then [] else Content(raw, cells[..n - 1]) + raw[cells[n - 1]]
  }

  /** `after` is `before` but for the rest of the last 2048 bytes the first `size` reach
      into, which hold the number of cell `last`, cut to a byte. */
  ghost predicate FilledUp(before: seq<byte>, after: seq<byte>, size: nat, last: nat) {
    && |after| == |before|
    && forall k :: 0 <= k < |after| ==>
         after[k] == if size <= k < 2048 * ((size + 2047) / 2048) then last % 256 else before[k]
  }

  /** The caller's buffer once `write` has filled the rest of its last cluster. */
  function Padded(buf: seq<byte>, size: nat, last: nat): (r: seq<byte>)
    requires CLUSTER_SIZE * Clusters(size) <= |buf|
    ensures |r| == |buf| && FilledUp(buf, r, size, last)
  {
    var full := CLUSTER_SIZE * Clusters(size);
    buf[..size] + seq(full - size, _ => last % 0x100) + buf[full..]
  }

  function FileEntry(name: Name, ext: Ext, c: nat, size: uint32): Entry
    requires c < CLUSTER_MAP_SIZE
  {
    Entry(name, ext, ATR_FILE, UATTR_NOT_EMPTY, ZERO_ENTRY.stamps, c / 0x1_0000 % 0x1_0000,
          ZERO_ENTRY.modified, c % 0x1_0000, size)
  }

  /** A folder's entry in its parent. The fields the driver does not set keep
      whatever `stack` held. */
  function FolderEntry(stack: Entry, name: Name, c: nat): Entry
    requires c < CLUSTER_MAP_SIZE
  {
    stack.(name := name, attribute := ATR_DIRECTORY, userAttribute := UATTR_NOT_EMPTY,
    high := c / 0x1_0000 % 0x1_0000, low := c % 0x1_0000, filesize := 0)
  }

  /** A new directory's table: entry 0 names the directory and points at its parent. */
  function NewTable(stack: Entry, name: Name, parent: uint32): (t: Table)
    ensures |t| == TABLE_SIZE
    ensures forall i :: 1 <= i < |t| ==> t[i] == ZERO_ENTRY
  {
    [stack.(name := name, ext := NO_EXT, attribute := ATR_DIRECTORY, userAttribute := UATTR_NOT_EMPTY,
     high := parent / 0x1_0000 % 0x1_0000, low := parent % 0x1_0000, filesize := 0)]
    + seq(TABLE_SIZE - 1, _ => ZERO_ENTRY)
  }

  /** The fields of the entries that `write` makes. */
  lemma EntriesMade(stack: Entry, name: Name, ext: Ext, c: nat, size: uint32)
    requires c < CLUSTER_MAP_SIZE
    ensures var e := FileEntry(name, ext, c, size);
            && e.name == name && e.ext == ext && e.attribute == 0 && e.userAttribute == 0xAA && e.filesize == size
            && e.high == 0 && e.low == c && e.stamps == [0, 0, 0, 0, 0, 0, 0] && e.modified == [0, 0, 0, 0]
    ensures var e := FolderEntry(stack, name, c);
            && e.name == name && e.attribute == 0x10 && e.userAttribute == 0xAA && e.filesize == 0
            && e.high == 0 && e.low == c
            && e.ext == stack.ext && e.stamps == stack.stamps && e.modified == stack.modified
    ensures var e := NewTable(stack, name, c)[0];
            && e.name == name && e.ext == [0, 0, 0] && e.attribute == 0x10 && e.userAttribute == 0xAA
            && e.filesize == 0 && e.high == 0 && e.low == c
  {
  }

  // -- The operations --

  /** Boot sector signature: five rows of text padded with zeros, closed by "Ok". */
  const SIGNATURE_ROWS: seq<string> :=
    ["Course          ", "Designed by     ", "Lab Sister ITB  ", "Made with <3    ", "-----------2024\n"]

  function Signature(): (s: seq<byte>)
    ensures |s| == BLOCK_SIZE
  {
    seq(BLOCK_SIZE, i requires 0 <= i < BLOCK_SIZE =>
      if i == BLOCK_SIZE - 2 then 'O' as int
      else if i == BLOCK_SIZE - 1 then 'k' as int
      else if i < 80 then SIGNATURE_ROWS[i / 16][i % 16] as int % 0x100
      else 0)
  }

  function Formatted(v: Volume, stack: Entry): (r: Volume)
    requires v.Shaped()
    ensures r.Shaped()
  {
    var fat := v.fat[0 := CLUSTER_0_VALUE][1 := CLUSTER_1_VALUE][2 := END_OF_FILE];
    Volume(fat, v.raw[0 := Signature() + v.raw[0][BLOCK_SIZE..]]
           [FAT_CLUSTER_NUMBER := CellBytes(fat)]
           [ROOT_CLUSTER_NUMBER := TableBytes(NewTable(stack, ROOT_NAME, ROOT_CLUSTER_NUMBER))])
  }

  function Initialized(v: Volume, stack: Entry): (r: Volume)
    requires v.Shaped()
    ensures r.Shaped()
  {
    if v.raw[0][..BLOCK_SIZE] != Signature() then Formatted(v, stack)
    else Volume(CellsOf(v.raw[FAT_CLUSTER_NUMBER]), v.raw)
  }

  /** What `write` needs of its caller: the map has a free cell, or the scan would leave
      it; and if the parent has a slot, cells and buffer bytes for every whole cluster. */
  predicate WriteReady(v: Volume, q: Request, room: nat) {
    && |v.fat| == |v.raw| == CLUSTER_MAP_SIZE
    && q.parent < CLUSTER_MAP_SIZE
    && (v.fat[q.parent] != EMPTY_ENTRY ==>
          && |Free(v.fat)| >= 1
          && (FirstDead(v.Dir(q.parent)) < |v.Dir(q.parent)| ==>
                Clusters(q.bufferSize) <= |Free(v.fat)| && CLUSTER_SIZE * Clusters(q.bufferSize) <= room))
  }

  /** The cells `write` picks for a file of `size` bytes. */
  function Picked(v: Volume, size: nat): (cells: seq<nat>)
    requires |v.fat| == CLUSTER_MAP_SIZE
    requires 0 < size && Clusters(size) <= |Free(v.fat)|
    ensures |cells| == Clusters(size) > 0
    ensures forall k :: 0 <= k < |cells| ==> 2 <= cells[k] < |v.fat| && v.fat[cells[k]] == EMPTY_ENTRY
  {
    FreeCells(v.fat, ROOT_CLUSTER_NUMBER);
    Free(v.fat)[..Clusters(size)]
  }

  function FileWritten(v: Volume, q: Request, buf: seq<byte>): (o: Outcome)
    requires v.Shaped() && WriteReady(v, q, |buf|) && q.bufferSize > 0
  {
    var t := v.Dir(q.parent);
    var j := FirstDead(t);
    if v.fat[q.parent] == EMPTY_ENTRY then Outcome(v, 2)
    else if j == |t| then Outcome(v, -1)
    else
      var cells := Picked(v, q.bufferSize);
      var entered := v.raw[q.parent := TableBytes(t[j := FileEntry(q.name, q.ext, cells[0], q.bufferSize)])];
      Outcome(Filed(v.fat, entered, cells, Padded(buf, q.bufferSize, cells[|cells| - 1])), 0)
  }

  /** `data` stored in `cells`, the chain linked, the FAT written through. */
  function Filed(fat: seq<uint32>, entered: seq<seq<byte>>, cells: seq<nat>, data: seq<byte>): (r: Volume)
    requires Volume(fat, entered).Shaped() && 0 < |cells| && CLUSTER_SIZE * |cells| <= |data|
    requires forall k :: 0 <= k < |cells| ==> cells[k] < |fat|
  {
    var linked := Link(fat, cells);
    Volume(linked, Store(entered, cells, data)[FAT_CLUSTER_NUMBER := CellBytes(linked)])
  }

  function FolderWritten(v: Volume, q: Request, stack: Entry, selfStack: Entry): (o: Outcome)
    requires v.Shaped() && WriteReady(v, q, 0) && q.bufferSize == 0
  {
    if v.fat[q.parent] == EMPTY_ENTRY then Outcome(v, 2)
    else
      var t := v.Dir(q.parent);
      var j := FirstDead(t);
      FreeCells(v.fat, ROOT_CLUSTER_NUMBER);
      var c := Free(v.fat)[0];
      var fat := v.fat[c := END_OF_FILE];
      var parent := if j < |t| then t[j := FolderEntry(stack, q.name, c)] else t;
      Outcome(Volume(fat, v.raw[c := TableBytes(NewTable(selfStack, q.name, q.parent))]
                     [FAT_CLUSTER_NUMBER := CellBytes(fat)][q.parent := TableBytes(parent)]), 0)
  }

  function Written(v: Volume, q: Request, buf: seq<byte>, stack: Entry, selfStack: Entry): (o: Outcome)
    requires v.Shaped() && WriteReady(v, q, |buf|)
  {
    if q.bufferSize == 0 then FolderWritten(v, q, stack, selfStack) else FileWritten(v, q, buf)
  }

  /** `write` pads the caller's buffer, and only when it has written a file. */
  function BufferAfterWrite(v: Volume, q: Request, buf: seq<byte>): (b: seq<byte>)
    requires v.Shaped() && WriteReady(v, q, |buf|)
  {
    if q.bufferSize == 0 || FileWritten(v, q, buf).code != 0 then buf
    else
      var cells := Picked(v, q.bufferSize);
      Padded(buf, q.bufferSize, cells[|cells| - 1])
  }

  /** The caller's buffer after `write`: untouched when the call fails or makes a folder,
      else filled up with the number of the cell that now ends the chain. */
  ghost predicate BufferKept(v: Volume, q: Request, before: seq<byte>, o: Outcome, after: seq<byte>) {
    if o.code != 0 || q.bufferSize == 0 then after == before
    else
      exists last :: 0 <= last < |v.fat| == |o.vol.fat| && v.fat[last] == EMPTY_ENTRY && o.vol.fat[last] == END_OF_FILE
                     && FilledUp(before, after, q.bufferSize, last)
  }

  lemma WriteKeepsBuffer(v: Volume, q: Request, buf: seq<byte>, stack: Entry, selfStack: Entry)
    requires v.Shaped() && WriteReady(v, q, |buf|)
    ensures BufferKept(v, q, buf, Written(v, q, buf, stack, selfStack), BufferAfterWrite(v, q, buf))
  {
    hide TableOf, TableBytes, CellBytes, FirstDead, Free, Clusters, Store, Padded, Thread, FilledUp, FileEntry, Chunk;
    if q.bufferSize > 0 && FileWritten(v, q, buf).code == 0 {
      var cells := Picked(v, q.bufferSize);
      assert v.fat[cells[|cells| - 1]] == EMPTY_ENTRY;
    }
  }

  /** The cluster `delete` would free is one the driver can reach. */
  predicate DeleteReady(v: Volume, q: Request) {
    && |v.fat| == |v.raw| == CLUSTER_MAP_SIZE
    && (q.name != NO_NAME ==>
          && q.parent < CLUSTER_MAP_SIZE
          && var i := FirstNamed(v.Dir(q.parent), q.name);
          i < |v.Dir(q.parent)| ==>
            var c := ClusterNo(v.Dir(q.parent)[i]);
            if q.ext == NO_EXT then c < CLUSTER_MAP_SIZE else Walkable(v.fat, c))
  }

  function Deleted(v: Volume, q: Request): (o: Outcome)
    requires v.Shaped() && DeleteReady(v, q)
  {
    if q.name == NO_NAME then Outcome(v, -1)
    else
      var t := v.Dir(q.parent);
      var i := FirstNamed(t, q.name);
      if i == |t| then Outcome(v, 1)
      else if q.ext != NO_EXT then Outcome(FileDeleted(v, q.parent, i), 0)
      else if HasEntries(v.Dir(ClusterNo(t[i]))) then Outcome(v, 2)
      else Outcome(FolderDeleted(v, q.parent, i), 0)
  }

  lemma FileWrittenShaped(v: Volume, q: Request, buf: seq<byte>)
    requires v.Shaped() && WriteReady(v, q, |buf|) && q.bufferSize > 0
    ensures FileWritten(v, q, buf).vol.Shaped()
  {
    hide TableOf, TableBytes, CellBytes, Link, Store, FirstDead, Padded, Picked, Free, Clusters;
  }

  lemma FolderWrittenShaped(v: Volume, q: Request, stack: Entry, selfStack: Entry)
    requires v.Shaped() && WriteReady(v, q, 0) && q.bufferSize == 0
    ensures FolderWritten(v, q, stack, selfStack).vol.Shaped()
  {
    hide TableOf, TableBytes, CellBytes, FirstDead, NewTable, Free, Clusters;
    if v.fat[q.parent] != EMPTY_ENTRY { FreeCells(v.fat, ROOT_CLUSTER_NUMBER); }
  }

  lemma FolderDeletedShaped(v: Volume, parent: nat, i: nat)
    requires v.Shaped() && parent < CLUSTER_MAP_SIZE && i < TABLE_SIZE
    requires ClusterNo(v.Dir(parent)[i]) < CLUSTER_MAP_SIZE
    ensures FolderDeleted(v, parent, i).Shaped()
  {
    hide TableOf, TableBytes, CellBytes, ClusterNo;
  }

  lemma FileDeletedShaped(v: Volume, parent: nat, i: nat)
    requires v.Shaped() && parent < CLUSTER_MAP_SIZE && i < TABLE_SIZE
    requires Walkable(v.fat, ClusterNo(v.Dir(parent)[i]))
    ensures FileDeleted(v, parent, i).Shaped()
  {
    hide TableOf, TableBytes, CellBytes, ClusterNo, Walkable, Chain, Release;
  }

  predicate HasEntries(t: Table) {
    exists k :: 1 <= k < |t| && Live(t[k])
  }

  /** Slot `i` of the directory at `parent` dropped, with its folder's cell. */
  function FolderDeleted(v: Volume, parent: nat, i: nat): (r: Volume)
    requires v.Shaped() && parent < CLUSTER_MAP_SIZE && i < TABLE_SIZE
    requires ClusterNo(v.Dir(parent)[i]) < CLUSTER_MAP_SIZE
  {
    var t := v.Dir(parent);
    var fat := v.fat[ClusterNo(t[i]) := EMPTY_ENTRY];
    Volume(fat, v.raw[FAT_CLUSTER_NUMBER := CellBytes(fat)]
           [parent := TableBytes(t[i := t[i].(userAttribute := 0)])])
  }

  /** Slot `i` of the directory at `parent` zeroed, its file's chain freed and cleared. */
  function FileDeleted(v: Volume, parent: nat, i: nat): (r: Volume)
    requires v.Shaped() && parent < CLUSTER_MAP_SIZE && i < TABLE_SIZE
    requires Walkable(v.fat, ClusterNo(v.Dir(parent)[i]))
  {
    var t := v.Dir(parent);
    var cells := Chain(v.fat, ClusterNo(t[i]));
    var fat := Release(v.fat, cells);
    Volume(fat, Wipe(v.raw, cells)[FAT_CLUSTER_NUMBER := CellBytes(fat)][parent := TableBytes(t[i := ZERO_ENTRY])])
  }

  /** The chain `read` would follow is one the driver can walk. */
  predicate ReadReady(v: Volume, q: Request) {
    && |v.fat| == |v.raw| == CLUSTER_MAP_SIZE
    && (q.name != NO_NAME ==>
          && q.parent < CLUSTER_MAP_SIZE
          && var i := FirstNamed(v.Dir(q.parent), q.name);
          i < |v.Dir(q.parent)| && v.Dir(q.parent)[i].filesize != 0 ==> Walkable(v.fat, ClusterNo(v.Dir(q.parent)[i])))
  }

  /** What a read finds: the code, and the clusters it copies to the buffer. */
  datatype Found = Found(code: int, cells: seq<nat>)

  function FileRead(v: Volume, q: Request): (f: Found)
    requires ReadReady(v, q)
    ensures forall k :: 0 <= k < |f.cells| ==> f.cells[k] < |v.raw|
  {
    if q.name == NO_NAME then Found(-1, [])
    else
      var t := v.Dir(q.parent);
      var i := FirstNamed(t, q.name);
      if i == |t| then Found(3, [])
      else if t[i].filesize == 0 then Found(1, [])
      else RoomFor(q, Chain(v.fat, ClusterNo(t[i])))
  }

  /** The clusters of a chain that `read` copies. Its size test counts CLUSTER_MAP_SIZE
      bytes a cluster, not CLUSTER_SIZE. */
  function RoomFor(q: Request, cells: seq<nat>): (f: Found)
  {
    var room := q.bufferSize / CLUSTER_MAP_SIZE + 1;
    if room < |cells| then Found(2, cells[..room]) else Found(0, cells)
  }

  predicate ReadDirectoryReady(v: Volume, q: Request) {
    && |v.raw| == CLUSTER_MAP_SIZE
    && (q.bufferSize == CLUSTER_SIZE ==>
          && q.parent < CLUSTER_MAP_SIZE
          && var i := FirstNamed(v.Dir(q.parent), q.name);
          i < |v.Dir(q.parent)| && v.Dir(q.parent)[i].filesize == 0 ==>
            ClusterNo(v.Dir(q.parent)[i]) < CLUSTER_MAP_SIZE)
  }

  function FolderRead(v: Volume, q: Request): (f: Found)
    requires ReadDirectoryReady(v, q)
    ensures f.code == 0 <==> |f.cells| == 1
    ensures forall k :: 0 <= k < |f.cells| ==> f.cells[k] < |v.raw|
  {
    if q.bufferSize != CLUSTER_SIZE then Found(-1, [])
    else
      var t := v.Dir(q.parent);
      var i := FirstNamed(t, q.name);
      if i == |t| then Found(2, [])
      else if t[i].filesize != 0 then Found(1, [])
      else Found(0, [ClusterNo(t[i])])
  }
}
