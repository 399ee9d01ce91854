/** The shell's `find`: a breadth-first search of the tree with a queue in a fixed array. */
module FindCommand {
  import opened Layout
  import opened Volume
  import opened Heap
  import opened Tree
  import opened Consistency
  import opened Names
  import opened Runs
  import opened Paths
  import opened Searches
  import opened Fat32

  const TARGET_AT := 5
  const LONGEST := 13

  /** What `find` tells its user. */
  datatype Hit = TooLong | RootItself | HeldBy(path: Path) | Nowhere

  /** The eight bytes after "find ", zeros past the end of the command. */
  function Target(command: seq<byte>, length: nat): (name: Name)
    requires length <= |command|
  {
    seq(8, i requires 0 <= i < 8 => if TARGET_AT + i >= length then 0 else command[TARGET_AT + i])
  }

  /** What is typed before the name: the word and a space. */
  const TYPED: seq<byte> := [0x66, 0x69, 0x6E, 0x64, 0x20]

  /** The name looked for by "find " and a name of up to eight bytes is that name, padded. */
  lemma TargetIs(command: seq<byte>, length: nat, part: seq<byte>)
    requires length <= |command| && command[..length] == TYPED + part && |part| <= 8
    ensures Target(command, length) == Pad(part)
  {
    var t := Target(command, length);
    assert length == |command[..length]| == 5 + |part|;
    forall i | 0 <= i < 8 ensures t[i] == Pad(part)[i] {
      if i < |part| { assert command[..length][5 + i] == part[i]; }
    }
  }

  /** The answer is right for the tree, and what it names is as near the root as any. */
  ghost predicate Answers(v: Volume, s: Shape, name: Name, hit: Hit)
    requires |v.raw| == CLUSTER_MAP_SIZE
  {
    match hit
    case TooLong => false
    case RootItself => name == ROOT_NAME
    case HeldBy(p) =>
      && name != ROOT_NAME && PathOk(v, s, p) && Last(p) < CLUSTER_MAP_SIZE && Holds(v, Last(p), name)
      && forall d :: d in s.depth && s.depth[d] + 1 < |p.clusters| ==> d < CLUSTER_MAP_SIZE && !Holds(v, d, name)
    case Nowhere =>
      name != ROOT_NAME && forall d :: d in s.depth ==> d < CLUSTER_MAP_SIZE && !Holds(v, d, name)
  }

  /** The array from 0 to the tail is the queue; the count is what is left from the head. */
  ghost predicate InArray(a: seq<Path>, q: Queue, qHead: nat, qTail: nat, qNeff: nat) {
    && |a| == QUEUE_SIZE && 0 < |q| < QUEUE_SIZE
    && a[..|q|] == q && qTail + 1 == |q| && qHead + qNeff == |q|
  }

  method TakeTarget(command: seq<byte>, length: nat) returns (name: Name, targetLen: nat)
    requires length <= |command| && length <= LONGEST
    ensures name == Target(command, length)
    ensures targetLen == if length < TARGET_AT then 0 else length - TARGET_AT
  {
    var target := new byte[8];
    var commandLen := TARGET_AT;
    targetLen := 0;
    for i := 0 to 8
      invariant commandLen == TARGET_AT + i && targetLen <= i
      invariant targetLen == if length < TARGET_AT then 0 else if length < commandLen then length - TARGET_AT else i
      invariant target[..i] == Target(command, length)[..i]
    {
      if commandLen >= length {
        target[i] := 0;
      } else {
        target[i] := command[commandLen];
        targetLen := targetLen + 1;
      }
      commandLen := commandLen + 1;
    }
    name := target[..];
  }

  /** The table of a queued directory, asked for by its parent and its name. */
  method ReadQueued(driver: Driver, p: Path, ghost s: Shape) returns (code: int, t: Table)
    requires driver.Valid() && Inv(driver.Vol(), s) && PathOk(driver.Vol(), s, p)
    ensures code == 0 && Last(p) < CLUSTER_MAP_SIZE && t == driver.Vol().Dir(Last(p)) && |t| == TABLE_SIZE
  {
    hide TreeInv, HeaderOk, TableOf, ReadDirectoryReady, FolderRead, StepOk;
    var buf := new byte[CLUSTER_SIZE](_ => 0);
    var n := |p.clusters|;
    EndOnDisk(driver.Vol(), s, p);
    var parent := if n == 1 then p.clusters[0] else p.clusters[n - 2];
    var q := Request(p.names[n - 1], NO_EXT, parent, CLUSTER_SIZE);
    AskedIsGiven(driver.Vol(), s, p, q);
    code := driver.ReadDirectory(q, buf);
    t := TableOf(buf[..]);
  }

  lemma EndOnDisk(v: Volume, s: Shape, p: Path)
    requires |v.raw| == CLUSTER_MAP_SIZE && PathOk(v, s, p)
    ensures Last(p) < CLUSTER_MAP_SIZE && |v.Dir(Last(p))| == TABLE_SIZE
    ensures |p.clusters| > 1 ==> p.clusters[|p.clusters| - 2] < CLUSTER_MAP_SIZE
  {
    assert StepOk(v, s, p, |p.clusters| - 1);
    if |p.clusters| > 1 { assert StepOk(v, s, p, |p.clusters| - 2); }
  }

  /** Goes through the entries of the directory at the head: stops at the name, and queues
      the folders before it. */
  method ScanHead(queue: array<Path>, qHead: nat, tail: nat, neff: nat, t: Table, target: Name,
                  ghost v: Volume, ghost s: Shape, ghost start: Queue)
    returns (found: bool, qTail: nat, qNeff: nat, ghost q: Queue)
    requires Inv(v, s) && LeftOnly(v, s, target) && Shallow(s) && Searching(v, s, start, qHead, 1, target)
    requires InArray(queue[..], start, qHead, tail, neff) && neff > 0
    requires t == v.Dir(Last(start[qHead])) && |t| == TABLE_SIZE
    modifies queue
    ensures start <= q && InArray(queue[..], q, qHead, qTail, qNeff)
    ensures found ==> Holds(v, Last(q[qHead]), target) && exists i: nat :: Searching(v, s, q, qHead, i, target)
    ensures !found ==> Searching(v, s, q, qHead + 1, 1, target)
  {
    hide TreeInv, HeapInv, HeaderOk, LeftOnly, Shallow, Searching, PathOk, ClusterNo, TableOf, Push;
    qTail, qNeff, q := tail, neff, start;
    found := false;
    var i := 1;
    while i < TABLE_SIZE
      invariant 1 <= i <= TABLE_SIZE && !found && start <= q
      invariant InArray(queue[..], q, qHead, qTail, qNeff)
      invariant Searching(v, s, q, qHead, i, target)
    {
      var entry := t[i];
      HeadStays(v, s, q, qHead, i, target, start);
      if entry.name == target {
        return true, qTail, qNeff, q;
      }
      if entry.attribute == ATR_DIRECTORY {
        qTail := qTail + 1;
        if qTail + 1 == QUEUE_SIZE {
          qTail := 0;
        }
        FolderQueued(v, s, q, qHead, i, target);
        q := q + [Push(q[qHead], entry)];
        SearchFits(v, s, q, qHead, i + 1, target);
        queue[qTail] := Push(queue[qHead], entry);
        qNeff := qNeff + 1;
      } else {
        EntryPassed(v, s, q, qHead, i, target);
      }
      i := i + 1;
    }
    HeadStays(v, s, q, qHead, i, target, start);
    HeadDone(v, s, q, qHead, target);
  }

  lemma HeadStays(v: Volume, s: Shape, q: Queue, head: nat, i: nat, name: Name, start: Queue)
    requires |v.raw| == CLUSTER_MAP_SIZE && Searching(v, s, q, head, i, name) && start <= q && head < |start|
    ensures q[head] == start[head] && q[head].clusters != [] && Last(q[head]) < CLUSTER_MAP_SIZE
  {
    hide PathOk, Searched, QueuedBy;
  }

  lemma SearchFits(v: Volume, s: Shape, q: Queue, head: nat, i: nat, name: Name)
    requires Inv(v, s) && Searching(v, s, q, head, i, name)
    ensures |q| <= CLUSTER_MAP_SIZE - 2
  {
    hide TreeInv, HeapInv, HeaderOk, Searched, QueuedBy, QueueOk;
    QueueFits(v, s, q);
  }

  /** The whole search. Its queue holds each directory once, so its ends never wrap. */
  method Search(driver: Driver, target: Name, ghost s: Shape) returns (hit: Hit)
    requires driver.Valid() && Inv(driver.Vol(), s) && Shallow(s) && LeftOnly(driver.Vol(), s, target)
    ensures Answers(driver.Vol(), s, target, hit)
  {
    hide TreeInv, HeapInv, HeaderOk, LeftOnly, Shallow, Searching, PathOk, TableOf, Holds;
    var queue := new Path[QUEUE_SIZE](_ => ROOT_PATH);
    if target == ROOT_NAME {
      return RootItself;
    }
    ghost var v, q := driver.Vol(), [ROOT_PATH];
    SearchStarts(v, s, target);
    var qHead, qTail, qNeff := 0, 0, 1;
    while qNeff != 0
      invariant InArray(queue[..], q, qHead, qTail, qNeff)
      invariant Searching(v, s, q, qHead, 1, target)
      decreases CLUSTER_MAP_SIZE - qHead
    {
      HeadPath(v, s, q, qHead, target);
      var code, t := ReadQueued(driver, queue[qHead], s);
      var found;
      found, qTail, qNeff, q := ScanHead(queue, qHead, qTail, qNeff, t, target, v, s, q);
      if found {
        FirstIsNearest(v, s, q, qHead, target);
        return HeldBy(queue[qHead]);
      }
      qHead := qHead + 1;
      qNeff := qNeff - 1;
    }
    NoneHolds(v, s, q, target);
    return Nowhere;
  }

  /** `find` of a name: a right answer for the name typed, and a hit just for names listed
      or left over. */
  method Find(driver: Driver, command: seq<byte>, length: nat, ghost s: Shape) returns (hit: Hit)
    requires driver.Valid() && length <= |command|
    requires Inv(driver.Vol(), s) && Shallow(s) && LeftOnly(driver.Vol(), s, Target(command, length))
    ensures hit == TooLong <==> length > LONGEST
    ensures length <= LONGEST ==> Answers(driver.Vol(), s, Target(command, length), hit)
    ensures forall part {:trigger TYPED + part} :: command[..length] == TYPED + part ==>
              if |part| > 8 then hit == TooLong
              else
                && Answers(driver.Vol(), s, Pad(part), hit)
                && (Hits(hit) <==> Listed(Abs(driver.Vol(), s), Pad(part)) || LeftOver(driver.Vol(), s, Pad(part)))
  {
    hide TreeInv, HeapInv, HeaderOk, LeftOnly, Shallow, Target, TableOf, Answers, Listed, LeftOver, Hits, Pad;
    NeverTooLong(driver.Vol(), s, Target(command, length));
    AsTyped(driver.Vol(), s, command, length);
    if length > LONGEST {
      return TooLong;
    }
    var target, targetLen := TakeTarget(command, length);
    hit := Search(driver, target, s);
  }

  lemma NeverTooLong(v: Volume, s: Shape, name: Name)
    requires |v.raw| == CLUSTER_MAP_SIZE
    ensures !Answers(v, s, name, TooLong)
  {
  }

  /** What a right answer to a command says of the name typed. */
  lemma AsTyped(v: Volume, s: Shape, command: seq<byte>, length: nat)
    requires length <= |command| && Inv(v, s)
    ensures forall part {:trigger TYPED + part} :: command[..length] == TYPED + part ==>
              length == 5 + |part| && (|part| <= 8 ==> Target(command, length) == Pad(part))
    ensures forall hit :: Answers(v, s, Target(command, length), hit) ==>
              (Hits(hit) <==> Listed(Abs(v, s), Target(command, length)) || LeftOver(v, s, Target(command, length)))
  {
    hide TreeInv, HeapInv, HeaderOk, Target, Answers, Listed, LeftOver, Hits, Pad, TableOf;
    forall part {:trigger TYPED + part} | command[..length] == TYPED + part
      ensures length == 5 + |part| && (|part| <= 8 ==> Target(command, length) == Pad(part))
    {
      assert |command[..length]| == |TYPED + part|;
      if |part| <= 8 { TargetIs(command, length, part); }
    }
    forall hit | Answers(v, s, Target(command, length), hit)
      ensures Hits(hit) <==> Listed(Abs(v, s), Target(command, length)) || LeftOver(v, s, Target(command, length))
    {
      HitIff(v, s, Target(command, length), hit);
    }
  }

  lemma HeadPath(v: Volume, s: Shape, q: Queue, head: nat, name: Name)
    requires |v.raw| == CLUSTER_MAP_SIZE && Searching(v, s, q, head, 1, name) && head < |q|
    ensures PathOk(v, s, q[head])
  {
    hide PathOk, Searched, QueuedBy;
  }

  lemma FirstIsNearest(v: Volume, s: Shape, q: Queue, head: nat, name: Name)
    requires Inv(v, s) && head < |q| && exists i: nat :: Searching(v, s, q, head, i, name)
    ensures PathOk(v, s, q[head])
    ensures forall d :: d in s.depth && s.depth[d] + 1 < |q[head].clusters| ==>
              d < CLUSTER_MAP_SIZE && !Holds(v, d, name)
  {
    hide TreeInv, HeapInv, HeaderOk, PathOk, Searched, QueuedBy, Holds;
    var i: nat :| Searching(v, s, q, head, i, name);
    forall d | d in s.depth && s.depth[d] + 1 < |q[head].clusters| ensures d < CLUSTER_MAP_SIZE && !Holds(v, d, name) {
      ShallowerSearched(v, s, q, head, i, name, d);
    }
  }

  lemma NoneHolds(v: Volume, s: Shape, q: Queue, name: Name)
    requires Inv(v, s) && Searching(v, s, q, |q|, 1, name)
    ensures forall d :: d in s.depth ==> d < CLUSTER_MAP_SIZE && !Holds(v, d, name)
  {
    hide TreeInv, HeapInv, HeaderOk, Searching, Holds;
    forall d | d in s.depth ensures d < CLUSTER_MAP_SIZE && !Holds(v, d, name) {
      AllSearched(v, s, q, name, d);
    }
  }

  // -- The names a user knows --

  /** Some directory of the file system lists the name. */
  ghost predicate Listed(fs: FileSystem, name: seq<byte>) {
    exists d :: d in fs && name in fs[d]
  }

  /** A dead entry of some directory kept the name. */
  ghost predicate LeftOver(v: Volume, s: Shape, name: Name) {
    exists d :: d in s.depth && d < |v.raw| && LeftIn(v.Dir(d), name)
  }

  ghost predicate LeftIn(t: Table, name: Name) {
    exists i :: 1 <= i < |t| && !Live(t[i]) && t[i].name == name
  }

  ghost predicate LiveIn(t: Table, name: Name) {
    exists i :: 1 <= i < |t| && Live(t[i]) && t[i].name == name
  }

  ghost predicate Hits(hit: Hit) {
    hit.RootItself? || hit.HeldBy?
  }

  /** A live entry's name is listed; a listed name is the root's or some live entry's. */
  lemma ListedIffLive(v: Volume, s: Shape, name: Name)
    requires Inv(v, s)
    ensures Listed(Abs(v, s), name) <==>
            name == ROOT_NAME || exists d :: d in s.depth && d < |v.raw| && LiveIn(v.Dir(d), name)
  {
    hide TableOf, TreeInv, HeapInv, HeaderOk, Listing, TablesOf, NamesOk, LiveIn;
    if Listed(Abs(v, s), name) {
      var d :| d in Abs(v, s) && name in Abs(v, s)[d];
      ListedAt(v, s, d, name);
    }
    if name == ROOT_NAME { RootIsLive(v, s); }
    if d :| d in s.depth && d < |v.raw| && LiveIn(v.Dir(d), name) { LiveIsListed(v, s, d, name); }
  }

  lemma LiveIsListed(v: Volume, s: Shape, d: nat, name: Name)
    requires Inv(v, s) && d in s.depth && d < |v.raw| && LiveIn(v.Dir(d), name)
    ensures d in Abs(v, s) && name in Abs(v, s)[d]
  {
    hide TableOf, TreeInv, HeapInv, HeaderOk, Abs, Listing, FirstNamed, ClusterNo, Walkable, Chain;
    var i :| 1 <= i < |v.Dir(d)| && Live(v.Dir(d)[i]) && v.Dir(d)[i].name == name;
    NodeAt(v, s, d, i);
  }

  lemma ListedAt(v: Volume, s: Shape, d: nat, name: Name)
    requires Inv(v, s) && d in Abs(v, s) && name in Abs(v, s)[d]
    ensures name == ROOT_NAME || exists x :: x in s.depth && x < |v.raw| && LiveIn(v.Dir(x), name)
  {
    hide TableOf, TreeInv, HeapInv, HeaderOk, Abs, Listing, TablesOf, NamesOk, FirstNamed, Walkable, Chain;
    AbsKeys(v, s);
    AbsAt(v, s, d);
    var i := ListedIsLive(v.Dir(d), name);
    if i >= 1 {
      assert LiveIn(v.Dir(d), name);
    } else if d == ROOT_CLUSTER_NUMBER {
      RootName(v, s);
    } else {
      DirHome(v, s, d);
      ChildKnowsParent(v, s, d);
      assert LiveIn(v.Dir(s.home[d].0), name);
    }
  }

  lemma RootIsLive(v: Volume, s: Shape)
    requires Inv(v, s)
    ensures ROOT_CLUSTER_NUMBER in Abs(v, s) && ROOT_NAME in Abs(v, s)[ROOT_CLUSTER_NUMBER]
  {
    hide TableOf, TreeInv, HeapInv, HeaderOk, Listing;
    RootPathOk(v, s);
    DepthIsLength(v, s, ROOT_PATH);
    RootName(v, s);
    SelfCluster(v, s, ROOT_CLUSTER_NUMBER);
    NodeAt(v, s, ROOT_CLUSTER_NUMBER, 0);
  }

  /** What a right answer over the entries means for the names: a hit is a name listed
      somewhere, or kept somewhere by a dead entry. */
  lemma HitIff(v: Volume, s: Shape, name: Name, hit: Hit)
    requires |v.raw| == CLUSTER_MAP_SIZE && Answers(v, s, name, hit) && Inv(v, s)
    ensures Hits(hit) <==> Listed(Abs(v, s), name) || LeftOver(v, s, name)
  {
    hide TableOf, TreeInv, HeapInv, HeaderOk, Abs, Listed, PathOk, LiveIn, LeftIn, Holds;
    ListedIffLive(v, s, name);
    forall d | d in s.depth && d < CLUSTER_MAP_SIZE
      ensures Holds(v, d, name) <==> LiveIn(v.Dir(d), name) || LeftIn(v.Dir(d), name)
    {
      HoldsIff(v, d, name);
    }
    if hit.HeldBy? { DepthIsLength(v, s, hit.path) by { PathEnd(v, s, hit.path); } }
  }

  lemma HoldsIff(v: Volume, d: nat, name: Name)
    requires d < |v.raw|
    ensures Holds(v, d, name) <==> LiveIn(v.Dir(d), name) || LeftIn(v.Dir(d), name)
  {
    hide TableOf, Live;
  }

  /** In any volume in order the hit agrees with the names listed, unless the name is
      listed nowhere and left over somewhere. */
  lemma HitRightIff(v: Volume, s: Shape, name: Name, hit: Hit)
    requires |v.raw| == CLUSTER_MAP_SIZE && Answers(v, s, name, hit) && Inv(v, s)
    ensures (Hits(hit) <==> Listed(Abs(v, s), name)) <==> Listed(Abs(v, s), name) || !LeftOver(v, s, name)
  {
    hide TableOf, TreeInv, HeapInv, HeaderOk, Abs, Listed, LeftOver, Answers;
    HitIff(v, s, name, hit);
  }

  /** In a tidy tree a hit is reported exactly when some directory lists the name. */
  lemma HitIffListed(v: Volume, s: Shape, name: Name, hit: Hit)
    requires |v.raw| == CLUSTER_MAP_SIZE && Answers(v, s, name, hit)
    requires Tidy(v, s) && name != NO_NAME && Inv(v, s)
    ensures Hits(hit) <==> Listed(Abs(v, s), name)
  {
    hide TableOf, TreeInv, HeapInv, HeaderOk, Abs, Listed, Answers, IsPadded;
    HitIff(v, s, name, hit);
    forall d | d in s.depth && d < |v.raw| ensures !LeftIn(v.Dir(d), name) { assert TidyTable(v.Dir(d)); }
  }
}
