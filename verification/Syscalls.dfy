/** System calls 0 to 3: the kernel's way into the driver. Each one, made as its caller
    owes, does what the plain model of names says. */
module Syscalls {
  import opened Layout
  import opened Volume
  import opened Tree
  import opened Consistency
  import opened Names
  import opened Runs
  import opened Buffers
  import RunTheorems
  import opened Fat32

  /** The memory the request points at suits the call. */
  predicate BufferFits(v: Volume, op: Op, buf: array<byte>)
    requires v.Shaped() && Ready(v, op)
    reads buf
  {
    match op
    case Write(_, data, _, _) => buf[..] == data
    case Delete(_) => true
    case ReadFile(q) => CLUSTER_SIZE * |FileRead(v, q).cells| <= buf.Length
    case ReadFolder(_) => buf.Length == CLUSTER_SIZE
  }

  method Perform(d: Driver, op: Op, buf: array<byte>) returns (code: int)
    requires d.Valid() && buf != d.disk.image && Ready(d.Vol(), op) && BufferFits(d.Vol(), op, buf)
    modifies d.clusterMap, d.dirTableBuf, d.disk.image, buf
    ensures d.Vol() == Next(old(d.Vol()), op) && d.disk.Tail() == old(d.disk.Tail())
    ensures code == Answer(old(d.Vol()), op).code
    ensures op.ReadFile? || (op.ReadFolder? && code == 0) ==>
              Starts(old(buf[..]), buf[..], Answer(old(d.Vol()), op).data)
    ensures op.ReadFolder? && code == 0 ==> |Answer(old(d.Vol()), op).data| == 2048
    ensures op.Delete? || (op.ReadFolder? && code != 0) ==> buf[..] == old(buf[..])
    ensures op.Write? ==> BufferKept(old(d.Vol()), op.q, old(buf[..]), Outcome(d.Vol(), code), buf[..])
  {
    hide WriteReady, DeleteReady, ReadReady, ReadDirectoryReady, Written, Deleted, FileRead, FolderRead, Content,
      BufferAfterWrite, TableOf, BufferKept;
    match op {
      case ReadFile(q) =>
        code := d.Read(q, buf);
      case ReadFolder(q) =>
        code := d.ReadDirectory(q, buf);
        assert code == 0 ==> buf[..|buf[..]|] == buf[..];
      case Write(q, _, stack, selfStack) =>
        code := d.Write(q, buf, stack, selfStack);
      case Delete(q) =>
        code := d.Delete(q);
    }
  }

  /** One call by a caller who owes what `Owed` says: the names change and the answer is
      given as the plain model has it, and the volume stays in order. */
  method Serve(d: Driver, op: Op, buf: array<byte>, ghost s: Shape) returns (code: int)
    requires d.Valid() && buf != d.disk.image && Inv(d.Vol(), s) && Owed(d.Vol(), s, op)
    requires Ready(d.Vol(), op) ==> BufferFits(d.Vol(), op, buf)
    modifies d.clusterMap, d.dirTableBuf, d.disk.image, buf
    ensures d.Valid() && Inv(d.Vol(), NextShape(old(d.Vol()), s, op))
    ensures Ready(old(d.Vol()), op) && code == Answer(old(d.Vol()), op).code
    ensures SpecStep(old(Abs(d.Vol(), s)), op, Abs(d.Vol(), NextShape(old(d.Vol()), s, op)), Answer(old(d.Vol()), op))
    ensures d.disk.Tail() == old(d.disk.Tail())
    ensures op.ReadFile? || (op.ReadFolder? && code == 0) ==>
              Starts(old(buf[..]), buf[..], Answer(old(d.Vol()), op).data)
    ensures Delivered(old(Abs(d.Vol(), s)), op, code, old(buf[..]), buf[..])
  {
    hide TreeInv, Owed, Ready, SpecStep, Refines, Answer, Next, NextShape, Abs, BufferFits, Starts, BufferKept,
      Delivered;
    CallRefines(d.Vol(), s, op);
    RunTheorems.RefinesFacts(d.Vol(), s, op);
    ghost var v, before := d.Vol(), buf[..];
    FitsFolder(v, op, buf);
    code := Perform(d, op, buf);
    if op.ReadFile? || op.ReadFolder? {
      ReadDelivers(Abs(v, s), op, Abs(Next(v, op), NextShape(v, s, op)), Answer(v, op), before, buf[..]);
    } else {
      WriteDelivers(v, s, op, Outcome(d.Vol(), code), before, buf[..]);
    }
  }

  lemma FitsFolder(v: Volume, op: Op, buf: array<byte>)
    requires v.Shaped() && Ready(v, op) && BufferFits(v, op, buf)
    ensures op.ReadFolder? ==> buf.Length == 2048
  {
  }
}
