/** Breadth-first search of the directory tree, as values: what has been seen, what is
    queued, and why the first hit is right and shallowest. */
module Searches {
  import opened Layout
  import opened Volume
  import opened Heap
  import opened Tree
  import opened Consistency
  import opened Runs
  import opened Paths

  const QUEUE_SIZE := 512

  /** The path to a queued directory: as on the shell's stack, root first. */
  type Queue = seq<Path>

  /** The name is that of some entry other than entry 0 of directory `d`. Like the shell,
      this does not ask whether the entry is live. */
  ghost predicate Holds(v: Volume, d: nat, name: Name)
    requires d < |v.raw|
  {
    exists i :: 1 <= i < |v.Dir(d)| && v.Dir(d)[i].name == name
  }

  /** Every queued path follows the tree; no directory is queued twice; depths never go
      down along the queue and stay within one of the head's. */
  ghost predicate QueueOk(v: Volume, s: Shape, q: Queue)
    requires |v.raw| == CLUSTER_MAP_SIZE
  {
    && (forall k :: 0 <= k < |q| ==> PathOk(v, s, q[k]) && |q[k].clusters| <= MAX_DEPTH + 1)
    && (forall j, k :: 0 <= j < k < |q| ==> Last(q[j]) != Last(q[k]))
    && (forall j, k :: 0 <= j < k < |q| ==> |q[j].clusters| <= |q[k].clusters|)
    && q != [] && q[0] == ROOT_PATH
  }

  ghost predicate Queued(q: Queue, d: nat) {
    exists k :: 0 <= k < |q| && q[k].clusters != [] && Last(q[k]) == d
  }

  /** Directory `d` was searched: it does not hold the name and its folders are queued. */
  ghost predicate Searched(v: Volume, s: Shape, q: Queue, d: nat, name: Name)
    requires |v.raw| == CLUSTER_MAP_SIZE
  {
    && d < CLUSTER_MAP_SIZE && !Holds(v, d, name)
    && forall c :: c in s.home && c in s.depth && s.home[c].0 == d ==> Queued(q, c)
  }

  /** The search has finished `head` directories and the first `i - 1` entries of the next. */
  ghost predicate Searching(v: Volume, s: Shape, q: Queue, head: nat, i: nat, name: Name)
    requires |v.raw| == CLUSTER_MAP_SIZE
  {
    && QueueOk(v, s, q) && head <= |q|
    && (forall k :: 0 <= k < head ==> Searched(v, s, q, Last(q[k]), name))
    && (head < |q| ==> |q[|q| - 1].clusters| <= |q[head].clusters| + 1)
    && (head == |q| ==> i == 1)
    && (head < |q| ==>
          && Last(q[head]) < CLUSTER_MAP_SIZE
          && 1 <= i <= |v.Dir(Last(q[head]))|
          && (forall j :: 1 <= j < i ==> v.Dir(Last(q[head]))[j].name != name)
          && (forall c :: c in s.home && c in s.depth && s.home[c].0 == Last(q[head]) && s.home[c].1 < i ==>
                Queued(q, c)))
    && (forall k :: 1 <= k < |q| ==> QueuedBy(s, q, head, i, k))
  }

  /** The parent of what is queued was searched, or is being searched up to its entry. */
  ghost predicate QueuedBy(s: Shape, q: Queue, head: nat, i: nat, k: nat)
    requires k < |q| && head <= |q|
  {
    && q[k].clusters != [] && Last(q[k]) in s.home
    && exists h :: 0 <= h < |q| && q[h].clusters != [] && Last(q[h]) == s.home[Last(q[k])].0
                   && (h < head || (h == head && s.home[Last(q[k])].1 < i))
  }

  lemma SearchStarts(v: Volume, s: Shape, name: Name)
    requires Inv(v, s)
    ensures Searching(v, s, [ROOT_PATH], 0, 1, name)
  {
    hide TableOf, TreeInv, HeapInv, HeaderOk, PathOk;
    RootPathOk(v, s);
    RootName(v, s);
    HomesFromOne(v, s);
  }

  lemma HomesFromOne(v: Volume, s: Shape)
    requires Inv(v, s)
    ensures forall c :: c in s.home ==> s.home[c].1 >= 1
  {
    hide TableOf, TreeInv, HeapInv, HeaderOk;
    forall c | c in s.home ensures s.home[c].1 >= 1 {
      HomeAt(TablesOf(v.raw, s.depth.Keys), s, c);
    }
  }

  ghost predicate Shallow(s: Shape) {
    forall d :: d in s.depth ==> s.depth[d] <= MAX_DEPTH
  }

  /** The only folder entries left over from deleted folders bear the name looked for. */
  ghost predicate LeftOnly(v: Volume, s: Shape, name: Name) {
    forall d :: d in s.depth && d < |v.raw| ==> LeftOnlyIn(v.Dir(d), name)
  }

  ghost predicate LeftOnlyIn(t: Table, name: Name) {
    forall j :: 0 <= j < |t| && !Live(t[j]) && t[j].attribute == ATR_DIRECTORY ==> t[j].name == name
  }

  lemma TidyHasNone(v: Volume, s: Shape, name: Name)
    requires Tidy(v, s)
    ensures LeftOnly(v, s, name)
  {
    hide TableOf, IsPadded;
    forall d | d in s.depth && d < |v.raw| ensures LeftOnlyIn(v.Dir(d), name) { assert TidyTable(v.Dir(d)); }
  }

  /** A folder entry of another name extends the path to the directory it is in. */
  lemma PushOk(v: Volume, s: Shape, p: Path, j: nat, name: Name)
    requires Inv(v, s) && LeftOnly(v, s, name) && Shallow(s) && PathOk(v, s, p)
    requires Last(p) < CLUSTER_MAP_SIZE && 1 <= j < |v.Dir(Last(p))| && v.Dir(Last(p))[j].attribute == ATR_DIRECTORY
    requires v.Dir(Last(p))[j].name != name
    ensures var e := v.Dir(Last(p))[j];
            && PathOk(v, s, Push(p, e)) && |p.clusters| <= MAX_DEPTH
            && Live(e) && ClusterNo(e) in s.home && ClusterNo(e) in s.depth && s.home[ClusterNo(e)] == (Last(p), j)
  {
    hide TableOf, TreeInv, HeapInv, HeaderOk, NamesOk, ClusterNo, TablesOf, PathOk;
    PathEnd(v, s, p);
    assert LeftOnlyIn(v.Dir(Last(p)), name);
    PushChild(v, s, p, j);
    PathEnd(v, s, Push(p, v.Dir(Last(p))[j]));
  }

  /** An entry that is no folder is no directory's home. */
  lemma HomesAreFolders(v: Volume, s: Shape, c: nat)
    requires Inv(v, s) && c in s.home && c in s.depth
    ensures var (d, j) := s.home[c];
            d in s.depth && d < CLUSTER_MAP_SIZE && 1 <= j < |v.Dir(d)| && v.Dir(d)[j].attribute == ATR_DIRECTORY
            && ClusterNo(v.Dir(d)[j]) == c
  {
    hide TableOf, TreeInv, HeapInv, HeaderOk, NamesOk, Clusters, ClusterNo, TablesOf, Walkable, Chain;
    ChildKnowsParent(v, s, c);
    LiveEntryAt(v, s, s.home[c].0, s.home[c].1);
  }

  /** A folder not yet looked at is not in the queue. */
  lemma NotQueued(v: Volume, s: Shape, q: Queue, head: nat, i: nat, name: Name, c: nat)
    requires |v.raw| == CLUSTER_MAP_SIZE && Searching(v, s, q, head, i, name) && head < |q|
    requires c in s.home && c != ROOT_CLUSTER_NUMBER && s.home[c] == (Last(q[head]), i)
    ensures forall k :: 0 <= k < |q| ==> Last(q[k]) != c
  {
    hide PathOk, Searched;
    forall k | 0 <= k < |q| ensures Last(q[k]) != c {
      if k > 0 { assert QueuedBy(s, q, head, i, k); }
    }
  }

  /** A folder entry is queued behind the rest. */
  lemma FolderQueued(v: Volume, s: Shape, q: Queue, head: nat, i: nat, name: Name)
    requires Inv(v, s) && LeftOnly(v, s, name) && Shallow(s) && Searching(v, s, q, head, i, name)
    requires head < |q| && i < |v.Dir(Last(q[head]))| && v.Dir(Last(q[head]))[i].name != name
    requires v.Dir(Last(q[head]))[i].attribute == ATR_DIRECTORY
    ensures Searching(v, s, q + [Push(q[head], v.Dir(Last(q[head]))[i])], head, i + 1, name)
  {
    hide TableOf, TreeInv, HeapInv, HeaderOk, PathOk, Searched, ClusterNo, LeftOnly, Holds, QueuedBy, Queued;
    var e := v.Dir(Last(q[head]))[i];
    var q', c := q + [Push(q[head], e)], ClusterNo(e);
    PushOk(v, s, q[head], i, name);
    RootHasNoHome(v, s);
    NotQueued(v, s, q, head, i, name, c);
    StillQueued(v, s, q, q', head, name);
    NewlyQueued(q', |q|, c);
    var i' := i + 1;
    forall x | x in s.home && x in s.depth && s.home[x].0 == Last(q[head]) && s.home[x].1 < i' ensures Queued(q', x) {
      if s.home[x].1 == i { HomesAreFolders(v, s, x); }
    }
    forall k | 1 <= k < |q'| ensures QueuedBy(s, q', head, i', k) { QueuedByMore(s, q, q', head, i, k); }
  }

  lemma RootHasNoHome(v: Volume, s: Shape)
    requires Inv(v, s)
    ensures ROOT_CLUSTER_NUMBER !in s.home
  {
    hide TableOf, TreeInv, HeapInv, HeaderOk;
    if ROOT_CLUSTER_NUMBER in s.home { HomeAt(TablesOf(v.raw, s.depth.Keys), s, ROOT_CLUSTER_NUMBER); }
  }

  lemma NewlyQueued(q: Queue, k: nat, c: nat)
    requires k < |q| && q[k].clusters != [] && Last(q[k]) == c
    ensures Queued(q, c)
  {
  }

  lemma QueuedMore(q: Queue, q': Queue, c: nat)
    requires q <= q' && Queued(q, c)
    ensures Queued(q', c)
  {
    var k :| 0 <= k < |q| && q[k].clusters != [] && Last(q[k]) == c;
    assert q'[k] == q[k];
  }

  lemma StillQueued(v: Volume, s: Shape, q: Queue, q': Queue, head: nat, name: Name)
    requires |v.raw| == CLUSTER_MAP_SIZE && q <= q' && head <= |q|
    requires forall k :: 0 <= k < |q| ==> q[k].clusters != []
    ensures forall c :: Queued(q, c) ==> Queued(q', c)
    ensures forall d :: Searched(v, s, q, d, name) ==> Searched(v, s, q', d, name)
  {
    hide Queued;
    forall c | Queued(q, c) ensures Queued(q', c) { QueuedMore(q, q', c); }
  }

  lemma QueuedByMore(s: Shape, q: Queue, q': Queue, head: nat, i: nat, k: nat)
    requires head < |q| && |q'| == |q| + 1 && q <= q' && 1 <= k < |q'| && q[head].clusters != []
    requires k < |q| ==> QueuedBy(s, q, head, i, k)
    requires k == |q| ==> q'[k].clusters != [] && Last(q'[k]) in s.home && s.home[Last(q'[k])] == (Last(q[head]), i)
    ensures QueuedBy(s, q', head, i + 1, k)
  {
    if k < |q| {
      assert q'[k] == q[k];
      var h :| 0 <= h < |q| && q[h].clusters != [] && Last(q[h]) == s.home[Last(q[k])].0
               && (h < head || (h == head && s.home[Last(q[k])].1 < i));
      assert q'[h] == q[h];
    } else {
      assert q'[head] == q[head];
    }
  }

  /** Any other entry is passed over. */
  lemma EntryPassed(v: Volume, s: Shape, q: Queue, head: nat, i: nat, name: Name)
    requires Inv(v, s) && Searching(v, s, q, head, i, name)
    requires head < |q| && i < |v.Dir(Last(q[head]))| && v.Dir(Last(q[head]))[i].name != name
    requires v.Dir(Last(q[head]))[i].attribute != ATR_DIRECTORY
    ensures Searching(v, s, q, head, i + 1, name)
  {
    hide TableOf, TreeInv, HeapInv, HeaderOk, PathOk, Searched, ClusterNo, Holds, Queued;
    var i' := i + 1;
    forall x | x in s.home && x in s.depth && s.home[x].0 == Last(q[head]) && s.home[x].1 < i' ensures Queued(q, x) {
      HomesAreFolders(v, s, x);
    }
    forall k | 1 <= k < |q| ensures QueuedBy(s, q, head, i', k) { assert QueuedBy(s, q, head, i, k); }
  }

  /** A directory whose entries are all passed is done with. */
  lemma HeadDone(v: Volume, s: Shape, q: Queue, head: nat, name: Name)
    requires Inv(v, s) && Searching(v, s, q, head, TABLE_SIZE, name)
    requires head < |q| && |v.Dir(Last(q[head]))| == TABLE_SIZE
    ensures Searching(v, s, q, head + 1, 1, name)
  {
    hide TableOf, TreeInv, HeapInv, HeaderOk, ClusterNo, Queued;
    var next := head + 1;
    forall x | x in s.home && x in s.depth && s.home[x].0 == Last(q[head]) ensures Queued(q, x) {
      HomesAreFolders(v, s, x);
    }
    assert Searched(v, s, q, Last(q[head]), name);
    forall k | 1 <= k < |q| ensures QueuedBy(s, q, next, 1, k) { assert QueuedBy(s, q, head, TABLE_SIZE, k); }
    if next < |q| {
      assert StepOk(v, s, q[next], |q[next].clusters| - 1);
      HomesFromOne(v, s);
    }
  }

  // -- What the search finds --

  /** With the queue run through, every directory was in it and none holds the name. */
  lemma {:induction false} AllSearched(v: Volume, s: Shape, q: Queue, name: Name, d: nat)
    requires Inv(v, s) && Searching(v, s, q, |q|, 1, name) && d in s.depth
    ensures Queued(q, d) && d < CLUSTER_MAP_SIZE && !Holds(v, d, name)
    decreases s.depth[d]
  {
    hide TableOf, TreeInv, HeapInv, HeaderOk, PathOk, Holds, Queued;
    if d != ROOT_CLUSTER_NUMBER {
      DirHome(v, s, d);
      ChildKnowsParent(v, s, d);
      AllSearched(v, s, q, name, s.home[d].0);
      IndexOf(v, s, q, s.home[d].0, name);
    } else {
      NewlyQueued(q, 0, d);
    }
    IndexOf(v, s, q, d, name);
  }

  lemma DirHome(v: Volume, s: Shape, d: nat)
    requires Inv(v, s) && d in s.depth && d != ROOT_CLUSTER_NUMBER
    ensures d in s.home
  {
    hide TableOf, TreeInv, HeapInv, HeaderOk;
    DirAt(v, s, d);
    At(TablesOf(v.raw, s.depth.Keys), s, d);
  }

  lemma IndexOf(v: Volume, s: Shape, q: Queue, d: nat, name: Name)
    requires |v.raw| == CLUSTER_MAP_SIZE && Searching(v, s, q, |q|, 1, name) && Queued(q, d)
    ensures Searched(v, s, q, d, name)
  {
    hide PathOk, Searched;
    var k :| 0 <= k < |q| && q[k].clusters != [] && Last(q[k]) == d;
  }

  /** Directories less deep than the one being searched were searched before: the first
      hit is a shallowest one. */
  lemma {:induction false} ShallowerSearched(v: Volume, s: Shape, q: Queue, head: nat, i: nat, name: Name, d: nat)
    requires Inv(v, s) && Searching(v, s, q, head, i, name) && head < |q| && d in s.depth
    requires s.depth[d] + 1 < |q[head].clusters|
    ensures d < CLUSTER_MAP_SIZE && !Holds(v, d, name) && exists k :: 0 <= k < head && Last(q[k]) == d
    decreases s.depth[d]
  {
    hide TableOf, TreeInv, HeapInv, HeaderOk, Holds, PathOk;
    if d != ROOT_CLUSTER_NUMBER {
      DirHome(v, s, d);
      ChildKnowsParent(v, s, d);
      var p := s.home[d].0;
      ShallowerSearched(v, s, q, head, i, name, p);
      var k :| 0 <= k < head && Last(q[k]) == p;
      assert Searched(v, s, q, Last(q[k]), name) && Queued(q, d);
      var m :| 0 <= m < |q| && q[m].clusters != [] && Last(q[m]) == d;
      DepthIsLength(v, s, q[m]);
      assert m < head;
    } else {
      DepthIsLength(v, s, q[0]);
      assert head > 0 && Last(q[0]) == d;
    }
  }

  lemma DepthIsLength(v: Volume, s: Shape, p: Path)
    requires |v.raw| == CLUSTER_MAP_SIZE && PathOk(v, s, p)
    ensures Last(p) in s.depth && s.depth[Last(p)] + 1 == |p.clusters|
  {
    assert StepOk(v, s, p, |p.clusters| - 1);
  }

  // -- The queue fits --

  function Lasts(q: Queue): (r: set<nat>)
    requires forall k :: 0 <= k < |q| ==> q[k].clusters != []
  {
    if q == [] then {} else Lasts(q[..|q| - 1]) + {Last(q[|q| - 1])}
  }

  lemma {:induction false} LastsCount(q: Queue)
    requires forall k :: 0 <= k < |q| ==> q[k].clusters != []
    requires forall j, k :: 0 <= j < k < |q| ==> Last(q[j]) != Last(q[k])
    ensures |Lasts(q)| == |q|
    ensures forall x :: x in Lasts(q) ==> exists k :: 0 <= k < |q| && Last(q[k]) == x
  {
    if q != [] {
      LastsCount(q[..|q| - 1]);
    }
  }

  /** Directories are cells 2 to 511 of the map, so the queue's indices stay below 511 and
      neither of its ends needs to wrap. */
  lemma QueueFits(v: Volume, s: Shape, q: Queue)
    requires Inv(v, s) && QueueOk(v, s, q)
    ensures |q| <= CLUSTER_MAP_SIZE - 2
  {
    hide TableOf, TreeInv, HeapInv, HeaderOk;
    forall k | 0 <= k < |q| ensures q[k].clusters != [] && 2 <= Last(q[k]) < CLUSTER_MAP_SIZE {
      DepthIsLength(v, s, q[k]);
      DirAt(v, s, Last(q[k]));
    }
    LastsCount(q);
    SubsetSize(Lasts(q), CellRange(2, CLUSTER_MAP_SIZE));
  }
}
