/** Sequences of calls: the driver simulates the plain model of names over every run, and
    a file reads back as it was last written whatever else happened in between. */
module RunTheorems {
  import opened Layout
  import opened Volume
  import opened Heap
  import opened Tree
  import opened Consistency
  import opened Names
  import opened Runs

  /** Where a run leaves the volume, and its shape. */
  ghost function After(v: Volume, s: Shape, ops: seq<Op>): (Volume, Shape)
    requires v.Shaped() && AllOwed(v, s, ops)
    decreases |ops|
  {
    if ops == [] then (v, s) else After(Next(v, ops[0]), NextShape(v, s, ops[0]), ops[1..])
  }

  ghost function Answers(v: Volume, s: Shape, ops: seq<Op>): (r: seq<Reply>)
    requires v.Shaped() && AllOwed(v, s, ops)
    ensures |r| == |ops|
    decreases |ops|
  {
    if ops == [] then []
    else [Answer(v, ops[0])] + Answers(Next(v, ops[0]), NextShape(v, s, ops[0]), ops[1..])
  }

  /** Each call of the run is one its caller may make in the state it finds. */
  ghost predicate AllOwed(v: Volume, s: Shape, ops: seq<Op>)
    requires v.Shaped()
    decreases |ops|
  {
    ops == []
    || (&& Owed(v, s, ops[0]) && Ready(v, ops[0]) && Next(v, ops[0]).Shaped()
        && AllOwed(Next(v, ops[0]), NextShape(v, s, ops[0]), ops[1..]))
  }

  /** The same of what callers owe alone: it does not ask that the driver finds what it
      needs on the way. */
  ghost predicate EachOwed(v: Volume, s: Shape, ops: seq<Op>)
    requires v.Shaped()
    decreases |ops|
  {
    ops == []
    || (&& Owed(v, s, ops[0])
        && (Ready(v, ops[0]) && Next(v, ops[0]).Shaped() ==>
              EachOwed(Next(v, ops[0]), NextShape(v, s, ops[0]), ops[1..])))
  }

  /** From a volume in order, callers who give what they owe are enough: along the whole
      run no scan leaves the map and no walk leaves its chain. */
  lemma {:induction false} OwedSuffices(v: Volume, s: Shape, ops: seq<Op>)
    requires Inv(v, s)
    ensures EachOwed(v, s, ops) <==> AllOwed(v, s, ops)
    decreases |ops|
  {
    hide TreeInv, HeapInv, HeaderOk, Abs, Owed, Ready, Next, NextShape, Answer, SpecStep, Refines;
    if ops != [] && Owed(v, s, ops[0]) {
      CallRefines(v, s, ops[0]);
      RefinesFacts(v, s, ops[0]);
      OwedSuffices(Next(v, ops[0]), NextShape(v, s, ops[0]), ops[1..]);
    }
  }

  /** Over every run the driver does to the volume what the plain model does to the names,
      gives the plain model's answers, and ends with the volume in order. */
  lemma {:induction false} RunRefines(v: Volume, s: Shape, ops: seq<Op>)
    requires Inv(v, s) && AllOwed(v, s, ops)
    ensures var (w, z) := After(v, s, ops);
            Inv(w, z) && SpecRun(Abs(v, s), ops, Answers(v, s, ops), Abs(w, z))
    decreases |ops|
  {
    hide TreeInv, HeapInv, HeaderOk, Abs, Owed, Ready, Next, NextShape, Answer, SpecStep, Refines;
    if ops != [] {
      CallRefines(v, s, ops[0]);
      RefinesFacts(v, s, ops[0]);
      var v', s' := Next(v, ops[0]), NextShape(v, s, ops[0]);
      RunRefines(v', s', ops[1..]);
      assert Answers(v, s, ops)[1..] == Answers(v', s', ops[1..]);
      assert Answers(v, s, ops)[0] == Answer(v, ops[0]);
    }
  }

  lemma RefinesFacts(v: Volume, s: Shape, op: Op)
    requires v.Shaped() && Owed(v, s, op) && Refines(v, s, op)
    ensures Ready(v, op) && Inv(Next(v, op), NextShape(v, s, op))
    ensures SpecStep(Abs(v, s), op, Abs(Next(v, op), NextShape(v, s, op)), Answer(v, op))
  {
  }

  // -- A file keeps its bytes --

  /** The call writes or deletes the name `n` of directory `d`. */
  predicate Touches(op: Op, d: nat, n: seq<byte>) {
    (op.Write? || op.Delete?) && op.q.parent == d && op.q.name == n
  }

  ghost predicate HasFile(fs: FileSystem, d: nat, n: seq<byte>, file: Node) {
    d in fs && n in fs[d] && fs[d][n] == file && file.File?
  }

  lemma StepKeepsFile(fs: FileSystem, op: Op, fs': FileSystem, r: Reply, d: nat, n: seq<byte>, file: Node)
    requires SpecStep(fs, op, fs', r) && HasFile(fs, d, n, file) && !Touches(op, d, n)
    ensures HasFile(fs', d, n, file)
  {
  }

  lemma {:induction false} RunKeepsFile(fs: FileSystem, ops: seq<Op>, replies: seq<Reply>, fs': FileSystem,
                                        d: nat, n: seq<byte>, file: Node)
    requires SpecRun(fs, ops, replies, fs') && HasFile(fs, d, n, file)
    requires forall i :: 0 <= i < |ops| ==> !Touches(ops[i], d, n)
    ensures HasFile(fs', d, n, file)
    decreases |ops|
  {
    hide SpecStep, HasFile;
    if ops != [] {
      var mid :| SpecStep(fs, ops[0], mid, replies[0]) && SpecRun(mid, ops[1..], replies[1..], fs');
      StepKeepsFile(fs, ops[0], mid, replies[0], d, n, file);
      RunKeepsFile(mid, ops[1..], replies[1..], fs', d, n, file);
    }
  }

  /** A name in use is one callers may read: its directory is live and the search finds
      the live entry, not one left over. */
  lemma KnownNameReadable(v: Volume, s: Shape, d: nat, name: Name)
    requires Inv(v, s) && d in Abs(v, s) && name in Abs(v, s)[d]
    ensures d in s.depth && d < CLUSTER_MAP_SIZE && NotStale(v, d, name)
  {
    hide TableOf, TreeInv, HeapInv, HeaderOk, Abs, Listing, NamesOk;
    AbsKeys(v, s);
    AbsAt(v, s, d);
    var i := ListedIsLive(v.Dir(d), name);
  }

  /** Write a file, then let any run of other calls go by: `read` with a buffer as large
      as the file returns 0 and its first bytes are those written. */
  lemma ReadsBackLastWrite(v: Volume, s: Shape, w: Op, ops: seq<Op>, q: Request)
    requires v.Shaped() && w.Write? && w.q.bufferSize > 0 && AllOwed(v, s, [w]) && Answer(v, w).code == 0
    requires AllOwed(Next(v, w), NextShape(v, s, w), ops)
    requires forall i :: 0 <= i < |ops| ==> !Touches(ops[i], w.q.parent, w.q.name)
    requires q.parent == w.q.parent && q.name == w.q.name && q.bufferSize >= w.q.bufferSize
    requires Inv(v, s)
    ensures w.q.bufferSize <= |w.buf|
    ensures var (u, z) := After(Next(v, w), NextShape(v, s, w), ops);
            && u.Shaped() && Ready(u, ReadFile(q))
            && Answer(u, ReadFile(q)).code == 0
            && w.q.bufferSize <= |Answer(u, ReadFile(q)).data|
            && Answer(u, ReadFile(q)).data[..w.q.bufferSize] == w.buf[..w.q.bufferSize]
  {
    hide TreeInv, HeapInv, HeaderOk, Abs, Owed, Ready, Next, NextShape, Answer, SpecStep, Refines, SpecRun, HasFile,
      After, Answers;
    CallRefines(v, s, w);
    RefinesFacts(v, s, w);
    var v', s' := Next(v, w), NextShape(v, s, w);
    FileMade(Abs(v, s), w, Abs(v', s'), Answer(v, w));
    RunRefines(v', s', ops);
    var (u, z) := After(v', s', ops);
    var data := w.buf[..w.q.bufferSize];
    RunKeepsFile(Abs(v', s'), ops, Answers(v', s', ops), Abs(u, z), q.parent, q.name, File(w.q.ext, data));
    ReadsFile(u, z, q, File(w.q.ext, data));
  }

  lemma FileMade(fs: FileSystem, w: Op, fs': FileSystem, r: Reply)
    requires w.Write? && w.q.bufferSize > 0 && SpecStep(fs, w, fs', r) && r.code == 0
    ensures w.q.bufferSize <= |w.buf| && HasFile(fs', w.q.parent, w.q.name, File(w.q.ext, w.buf[..w.q.bufferSize]))
  {
  }

  lemma ReadsFile(u: Volume, z: Shape, q: Request, file: Node)
    requires Inv(u, z) && HasFile(Abs(u, z), q.parent, q.name, file) && q.bufferSize >= |file.data| > 0
    ensures Ready(u, ReadFile(q)) && Answer(u, ReadFile(q)).code == 0
    ensures var data := file.data;
            |data| <= |Answer(u, ReadFile(q)).data| && Answer(u, ReadFile(q)).data[..|data|] == data
  {
    hide TreeInv, HeapInv, HeaderOk, Abs, Ready, Next, NextShape, Answer, NotStale;
    KnownNameReadable(u, z, q.parent, q.name);
    CallRefines(u, z, ReadFile(q));
    RefinesFacts(u, z, ReadFile(q));
    KnownNameNonZero(u, z, q.parent, q.name);
  }

  lemma KnownNameNonZero(v: Volume, s: Shape, d: nat, name: Name)
    requires Inv(v, s) && d in Abs(v, s) && name in Abs(v, s)[d]
    ensures name != NO_NAME
  {
    hide TableOf, TreeInv, HeapInv, HeaderOk, Abs, Listing;
    AbsKeys(v, s);
    AbsAt(v, s, d);
    var i := ListedIsLive(v.Dir(d), name);
    LiveName(v.Dir(d), i);
  }
}
