/** What callers find in their memory after a call, in terms of the names alone, and where
    the bytes of a file lie on the disk. */
module Buffers {
  import opened Layout
  import opened Volume
  import opened Heap
  import opened Tree
  import opened Consistency
  import opened Names
  import opened Runs

  /** `after` starts with `data`; all bytes behind it are as before. */
  ghost predicate Starts(before: seq<byte>, after: seq<byte>, data: seq<byte>) {
    |data| <= |after| == |before| && after[..|data|] == data && after[|data|..] == before[|data|..]
  }

  /** After a read of this node: a whole file, and behind it the rest of its last 2048 bytes
      on disk; or as many 2048-byte pieces as 512 bytes each go into the buffer size, and
      one more. */
  ghost predicate FileDelivered(data: seq<byte>, bufferSize: nat, code: int, before: seq<byte>, after: seq<byte>) {
    |after| == |before|
    && if code == 0 then
         var n := 2048 * ((|data| + 2047) / 2048);
         |data| <= n <= |after| && after[..|data|] == data && after[n..] == before[n..]
       else
         var n := 2048 * (bufferSize / 512 + 1);
         code == 2 && n <= |data| && n <= |after| && Starts(before, after, data[..n])
  }

  /** What the memory a call was given holds afterwards, in terms of the names. */
  ghost predicate Delivered(fs: FileSystem, op: Op, code: int, before: seq<byte>, after: seq<byte>) {
    var d, n := op.q.parent, op.q.name;
    match op
    case Write(q, _, _, _) =>
      if code != 0 || q.bufferSize == 0 then after == before
      else exists last :: 2 <= last < 512 && FilledUp(before, after, q.bufferSize, last)
    case Delete(_) => after == before
    case ReadFile(q) =>
      if code == 0 || code == 2 then
        n != NO_NAME && d in fs && n in fs[d] && fs[d][n].File?
        && FileDelivered(fs[d][n].data, q.bufferSize, code, before, after)
      else after == before
    case ReadFolder(q) =>
      if code == 0 then
        d in fs && n in fs[d] && fs[d][n].Folder? && fs[d][n].cluster in fs
        && |after| == 2048 && Shows(TableOf(after), fs[fs[d][n].cluster])
      else after == before
  }

  lemma FileIsDelivered(data: seq<byte>, bufferSize: nat, r: Reply, before: seq<byte>, after: seq<byte>)
    requires FileAnswer(data, bufferSize, r) && Starts(before, after, r.data)
    ensures FileDelivered(data, bufferSize, r.code, before, after)
  {
    if r.code == 0 {
      assert after[..|data|] == after[..|r.data|][..|data|];
    }
  }

  /** A reply the plain model allows, put at the start of the buffer, delivers what it should. */
  lemma ReadDelivers(fs: FileSystem, op: Op, fs': FileSystem, r: Reply, before: seq<byte>, after: seq<byte>)
    requires SpecStep(fs, op, fs', r) && (op.ReadFile? || op.ReadFolder?)
    requires if op.ReadFile? || r.code == 0 then Starts(before, after, r.data) else after == before
    requires op.ReadFolder? ==> |before| == 2048 && (r.code == 0 ==> |r.data| == 2048)
    ensures Delivered(fs, op, r.code, before, after)
  {
    hide Shows, FileAnswer, FileDelivered;
    var d, n := op.q.parent, op.q.name;
    match op {
      case ReadFile(q) =>
        if n != NO_NAME && d in fs && n in fs[d] && fs[d][n].File? {
          AnswerCodes(fs[d][n].data, q.bufferSize, r);
          FileIsDelivered(fs[d][n].data, q.bufferSize, r, before, after);
        }
      case ReadFolder(q) =>
        assert r.code == 0 ==> after == r.data;
    }
  }

  lemma AnswerCodes(data: seq<byte>, bufferSize: nat, r: Reply)
    requires FileAnswer(data, bufferSize, r)
    ensures r.code == 0 || r.code == 2
  {
  }

  lemma WriteDelivers(v: Volume, s: Shape, op: Op, o: Outcome, before: seq<byte>, after: seq<byte>)
    requires Inv(v, s) && (op.Write? || op.Delete?)
    requires if op.Delete? then after == before else BufferKept(v, op.q, before, o, after)
    ensures Delivered(Abs(v, s), op, o.code, before, after)
  {
    hide TreeInv, HeapInv, TableOf, Abs, FilledUp, CellBytes, Signature;
  }

  // -- On the disk --

  /** The bytes of a file written: the cells picked are one chain, and its `k`-th cell has
      the bytes from 2048 * k on, the rest of the last one being filled up. */
  lemma FileOnDisk(v: Volume, q: Request, buf: seq<byte>, k: nat, j: nat)
    requires v.Shaped() && WriteReady(v, q, |buf|) && q.bufferSize > 0 && 2 <= q.parent
    requires v.fat[q.parent] != EMPTY_ENTRY && FirstDead(v.Dir(q.parent)) < TABLE_SIZE
    requires 2048 * k < q.bufferSize && j < 2048
    ensures Clusters(q.bufferSize) <= |Free(v.fat)|
    ensures var cells, w := Picked(v, q.bufferSize), FileWritten(v, q, buf).vol;
            && w.Shaped() && k < |cells| && Walkable(w.fat, cells[0]) && Chain(w.fat, cells[0]) == cells
            && cells[k] < 512
            && w.raw[cells[k]][j] == if 2048 * k + j < q.bufferSize then buf[2048 * k + j] else cells[|cells| - 1] % 256
  {
    hide TableOf, TableBytes, CellBytes, FileWritten, FirstDead, Picked, Link, Padded, Chain, Walkable, FilledUp;
    FileWrittenRaw(v, q, buf);
    FileWrittenShaped(v, q, buf);
    var cells, w := Picked(v, q.bufferSize), FileWritten(v, q, buf).vol;
    LinkMakesChain(v.fat, cells);
    WalkIsChain(w.fat, cells[0], cells);
    var padded := Padded(buf, q.bufferSize, cells[|cells| - 1]);
    PaddedAt(buf, padded, q.bufferSize, cells[|cells| - 1], 2048 * k + j);
    assert Chunk(padded, k)[j] == padded[2048 * k + j];
  }

  lemma PaddedAt(before: seq<byte>, after: seq<byte>, size: nat, last: nat, i: nat)
    requires FilledUp(before, after, size, last) && i < |after| && i < 2048 * ((size + 2047) / 2048)
    ensures after[i] == if i < size then before[i] else last % 256
  {
  }
}
