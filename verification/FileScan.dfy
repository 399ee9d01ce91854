/** The scan inside `write`: what is true of the FAT and the disk when it has passed
    the cells below `i` and filled the clusters `cells`, while the newest cell of the
    chain still reads as empty. */
module FileScan {
  import opened Layout
  import opened Volume

  /** `cells` are the free cells of `before` below `i`, and `fat` threads them. */
  ghost predicate Scanned(before: seq<uint32>, i: nat, cells: seq<nat>, fat: seq<uint32>) {
    && |before| == |fat| == CLUSTER_MAP_SIZE
    && Free(before) == cells + Free(before, i)
    && (forall k :: 0 <= k < |cells| ==> cells[k] < i && cells[k] < |before|)
    && fat == Thread(before, cells)
  }

  lemma ScanStart(v: Volume, data: seq<byte>)
    requires v.Shaped()
    ensures Scanned(v.fat, ROOT_CLUSTER_NUMBER, [], v.fat)
    ensures forall raw :: SizedClusters(raw) ==> Store(raw, [], data) == raw
  {
    assert [] + Free(v.fat, ROOT_CLUSTER_NUMBER) == Free(v.fat);
  }

  /** While cells are missing the scan stays inside the map and reads the old cell there. */
  lemma ScanInRange(before: seq<uint32>, i: nat, cells: seq<nat>, fat: seq<uint32>)
    requires Scanned(before, i, cells, fat) && |cells| < |Free(before)|
    ensures i < CLUSTER_MAP_SIZE && fat[i] == before[i]
    ensures before[i] != EMPTY_ENTRY ==> Scanned(before, i + 1, cells, fat)
  {
    assert Free(before, i) != [];
    ThreadAbove(before, cells, i);
  }

  /** A free cell found: the cell before it is made to point on. */
  lemma ScanStep(before: seq<uint32>, i: nat, cells: seq<nat>, fat: seq<uint32>)
    requires Scanned(before, i, cells, fat) && i < CLUSTER_MAP_SIZE && before[i] == EMPTY_ENTRY
    ensures Scanned(before, i + 1, cells + [i], if cells == [] then fat else fat[cells[|cells| - 1] := i])
  {
    assert (cells + [i])[..|cells|] == cells;
    assert cells + Free(before, i) == (cells + [i]) + Free(before, i + 1);
  }

  /** The disk with the file's entry in its parent, before any data. */
  function Entered(raw: seq<seq<byte>>, q: Request, first: nat): (r: seq<seq<byte>>)
    requires |raw| == CLUSTER_MAP_SIZE && SizedClusters(raw)
    requires q.parent < CLUSTER_MAP_SIZE && first < CLUSTER_MAP_SIZE
    requires FirstDead(TableOf(raw[q.parent])) < TABLE_SIZE
    ensures |r| == CLUSTER_MAP_SIZE && SizedClusters(r)
  {
    var t := TableOf(raw[q.parent]);
    raw[q.parent := TableBytes(t[FirstDead(t) := FileEntry(q.name, q.ext, first, q.bufferSize)])]
  }

  /** No slot in the parent: nothing has changed yet. */
  lemma ScanFull(v: Volume, q: Request, buf: seq<byte>, i: nat, fat: seq<uint32>, raw: seq<seq<byte>>)
    requires v.Shaped() && WriteReady(v, q, |buf|) && q.bufferSize > 0 && v.fat[q.parent] != EMPTY_ENTRY
    requires FirstDead(v.Dir(q.parent)) == TABLE_SIZE
    requires Scanned(v.fat, i, [], fat) && raw == Store(v.raw, [], buf)
    ensures FileWritten(v, q, buf) == Outcome(Volume(fat, raw), -1)
  {
  }

  /** The last free cell needed is found: what the driver has built is `FileWritten`. */
  lemma ScanEnd(v: Volume, q: Request, buf: seq<byte>, i: nat, cells: seq<nat>, fat: seq<uint32>)
    requires v.Shaped() && WriteReady(v, q, |buf|) && q.bufferSize > 0 && v.fat[q.parent] != EMPTY_ENTRY
    requires FirstDead(v.Dir(q.parent)) < TABLE_SIZE
    requires Scanned(v.fat, i, cells, fat) && |cells| == Clusters(q.bufferSize)
    ensures Picked(v, q.bufferSize) == cells
    ensures forall k :: 0 <= k < |cells| ==> cells[k] < CLUSTER_MAP_SIZE
    ensures FileWritten(v, q, buf) ==
            var linked := fat[cells[|cells| - 1] := END_OF_FILE];
            var stored := Store(Entered(v.raw, q, cells[0]), cells, Padded(buf, q.bufferSize, cells[|cells| - 1]));
            Outcome(Volume(linked, stored[FAT_CLUSTER_NUMBER := CellBytes(linked)]), 0)
  {
    hide TableOf, TableBytes, CellBytes, Store, Padded, Thread, FirstDead, WriteReady, Clusters;
    ReadyRoom(v, q, |buf|);
    assert Free(v.fat)[..|cells|] == cells;
  }

  lemma ReadyRoom(v: Volume, q: Request, room: nat)
    requires v.Shaped() && WriteReady(v, q, room)
    ensures q.parent < CLUSTER_MAP_SIZE
    ensures v.fat[q.parent] != EMPTY_ENTRY ==> |Free(v.fat)| >= 1
    ensures v.fat[q.parent] != EMPTY_ENTRY && FirstDead(v.Dir(q.parent)) < TABLE_SIZE ==>
              Clusters(q.bufferSize) <= |Free(v.fat)| && CLUSTER_SIZE * Clusters(q.bufferSize) <= room
  {
  }

  /** One more chunk stored. */
  lemma StoreStep(raw: seq<seq<byte>>, cells: seq<nat>, i: nat, data: seq<byte>)
    requires forall k :: 0 <= k < |cells| ==> cells[k] < |raw|
    requires i < |raw| && SizedClusters(raw) && CLUSTER_SIZE * (|cells| + 1) <= |data|
    ensures Store(raw, cells + [i], data) == Store(raw, cells, data)[i := Chunk(data, |cells|)]
  {
    assert (cells + [i])[..|cells|] == cells;
  }

  /** The last chunk stored: padding the buffer first does not disturb the chunks before. */
  lemma StoreLast(raw: seq<seq<byte>>, cells: seq<nat>, i: nat, data: seq<byte>, size: nat)
    requires forall k :: 0 <= k < |cells| ==> cells[k] < |raw|
    requires i < |raw| && SizedClusters(raw)
    requires |cells| + 1 == Clusters(size) && CLUSTER_SIZE * (|cells| + 1) <= |data|
    ensures var padded := Padded(data, size, i);
            Store(raw, cells + [i], padded) == Store(raw, cells, data)[i := Chunk(padded, |cells|)]
  {
    var n := CLUSTER_SIZE * |cells|;
    assert Padded(data, size, i)[..n] == data[..n];
    StorePrefix(raw, cells, data, Padded(data, size, i));
    StoreStep(raw, cells, i, Padded(data, size, i));
  }

  /** Threading touches only the cells already picked. */
  lemma {:induction false} ThreadAbove(fat: seq<uint32>, cells: seq<nat>, i: nat)
    requires |fat| == CLUSTER_MAP_SIZE
    requires forall k :: 0 <= k < |cells| ==> cells[k] < |fat| && cells[k] < i
    ensures forall c :: i <= c < |fat| ==> Thread(fat, cells)[c] == fat[c]
  {
    if |cells| > 1 {
      ThreadAbove(fat, cells[..|cells| - 1], i);
    }
  }

  /** The chunks stored so far depend only on the bytes they hold. */
  lemma {:induction false} StorePrefix(raw: seq<seq<byte>>, cells: seq<nat>, data: seq<byte>, more: seq<byte>)
    requires forall k :: 0 <= k < |cells| ==> cells[k] < |raw|
    requires CLUSTER_SIZE * |cells| <= |data| && CLUSTER_SIZE * |cells| <= |more|
    requires SizedClusters(raw)
    requires data[..CLUSTER_SIZE * |cells|] == more[..CLUSTER_SIZE * |cells|]
    ensures Store(raw, cells, data) == Store(raw, cells, more)
  {
    if |cells| > 0 {
      var n := |cells| - 1;
      assert data[..CLUSTER_SIZE * n] == data[..CLUSTER_SIZE * |cells|][..CLUSTER_SIZE * n];
      assert more[..CLUSTER_SIZE * n] == more[..CLUSTER_SIZE * |cells|][..CLUSTER_SIZE * n];
      StorePrefix(raw, cells[..n], data, more);
      assert Chunk(data, n) == data[..CLUSTER_SIZE * |cells|][CLUSTER_SIZE * n..];
      assert Chunk(more, n) == more[..CLUSTER_SIZE * |cells|][CLUSTER_SIZE * n..];
    }
  }
}
