/** The shell's `cd`: a stack of directories kept in fixed arrays. */
module ChangeDirectory {
  import opened Layout
  import opened Volume
  import opened Heap
  import opened Tree
  import opened Consistency
  import opened Paths
  import opened Fat32

  const CD_UP: seq<byte> := [0x63, 0x64, 0x20, 0x2E, 0x2E]

  class Shell {
    const driver: Driver
    const dirPath: array<Name>
    const dirClusters: array<int>
    var depth: nat
    var currentCluster: int
    var parentCluster: int

    ghost predicate Shaped() {
      dirPath.Length == dirClusters.Length == MAX_DEPTH + 1
    }

    /** The first `n` directories in the arrays. */
    ghost function Stacked(n: nat): (p: Path)
      requires Shaped() && n <= MAX_DEPTH + 1
      reads dirPath, dirClusters
      ensures |p.clusters| == |p.names| == n
    {
      Path(seq(n, i requires 0 <= i < n reads dirClusters => if dirClusters[i] >= 0 then dirClusters[i] else 0),
           dirPath[..n])
    }

    /** Where the shell stands. */
    ghost function Stack(): Path
      requires Valid()
      reads this, dirPath, dirClusters
    {
      Stacked(depth + 1)
    }

    ghost predicate Valid()
      reads this, dirPath, dirClusters
    {
      && Shaped() && driver.Valid()
      && depth <= MAX_DEPTH
      && (forall i :: 0 <= i <= depth ==> 0 <= dirClusters[i] < CLUSTER_MAP_SIZE)
      && currentCluster == dirClusters[depth]
      && parentCluster == dirClusters[if depth == 0 then 0 else depth - 1]
    }

    constructor (driver: Driver)
      requires driver.Valid()
      ensures Valid() && this.driver == driver && Stack() == ROOT_PATH
      ensures fresh(dirPath) && fresh(dirClusters) && dirPath.Length == dirClusters.Length == 10
    {
      this.driver := driver;
      dirPath := new Name[MAX_DEPTH + 1](i => if i == 0 then ROOT_NAME else NO_NAME);
      dirClusters := new int[MAX_DEPTH + 1](i => if i == 0 then ROOT_CLUSTER_NUMBER else -1);
      depth := 0;
      currentCluster := 2;
      parentCluster := 2;
    }

    /** `cd ..`: one directory up, or nowhere from the root. */
    method Up()
      requires Valid()
      modifies this, dirClusters
      ensures Valid() && Stack() == Pop(old(Stack()))
      ensures depth == if old(depth) == 0 then 0 else old(depth) - 1
    {
      if depth > 0 {
        ghost var before := Stack();
        dirClusters[depth] := -1;
        if depth >= 2 {
          parentCluster := dirClusters[depth - 2];
        } else {
          parentCluster := dirClusters[depth - 1];
        }
        currentCluster := dirClusters[depth - 1];
        depth := depth - 1;
        assert Stack().clusters == before.clusters[..depth + 1];
      }
    }

    /** The table of the directory at `currDepth`, read through the driver by its parent
        and its name. */
    method ReadCurrent(currDepth: nat, ghost s: Shape) returns (code: int, t: Table)
      requires Shaped() && driver.Valid() && currDepth <= MAX_DEPTH && Inv(driver.Vol(), s)
      requires PathOk(driver.Vol(), s, Stacked(currDepth + 1))
      requires forall i :: 0 <= i <= currDepth ==> 0 <= dirClusters[i] < CLUSTER_MAP_SIZE
      ensures code == 0 && OnDisk(driver.Vol(), Stacked(currDepth + 1))
      ensures t == driver.Vol().Dir(Last(Stacked(currDepth + 1)))
    {
      hide TreeInv, HeaderOk, TableOf, PathOk, ReadDirectoryReady, FolderRead;
      var buf := new byte[CLUSTER_SIZE](_ => 0);
      var parent := if currDepth == 0 then dirClusters[0] else dirClusters[currDepth - 1];
      var q := Request(dirPath[currDepth], NO_EXT, parent, CLUSTER_SIZE);
      AskedIsGiven(driver.Vol(), s, Stacked(currDepth + 1), q);
      PathEnd(driver.Vol(), s, Stacked(currDepth + 1));
      code := driver.ReadDirectory(q, buf);
      t := TableOf(buf[..]);
    }

    /** The component that starts at `i`: up to a slash or the end, in an eight-byte buffer. */
    method TakePart(command: seq<byte>, i: nat, length: nat) returns (taken: seq<byte>, end: nat)
      requires i <= length < |command| && FirstSlash(command[i..length]) <= 8
      ensures end == i + FirstSlash(command[i..length]) <= length && taken == command[i..end]
    {
      ghost var s := command[i..length];
      var path := new byte[8];
      var pathLen := 0;
      end := i;
      while command[end] != SLASH && end < length
        invariant i <= end <= length && pathLen == end - i <= |s|
        invariant FirstSlash(s) == FirstSlash(s, pathLen)
        invariant pathLen <= 8 && path[..pathLen] == command[i..end]
        decreases length - end
      {
        assert s[pathLen] == command[end];
        path[pathLen] := command[end];
        pathLen := pathLen + 1;
        end := end + 1;
      }
      assert end < length ==> s[pathLen] == command[end];
      taken := path[..pathLen];
    }

    /** The first folder entry whose name is `part`, looked for from entry 1. */
    method Search(t: Table, part: seq<byte>) returns (j: nat)
      requires |t| == TABLE_SIZE
      ensures j == FindFolder(t, part)
    {
      j := 1;
      while j < TABLE_SIZE
        invariant 1 <= j <= TABLE_SIZE && FindFolder(t, part) == FindFolder(t, part, j)
      {
        if t[j].name[0] != 0 {
          var nameLength := 0;
          while nameLength < 8 && t[j].name[nameLength] != 0
            invariant nameLength <= 8 && NameLength(t[j].name) == NameLength(t[j].name, nameLength)
          {
            nameLength := nameLength + 1;
          }
          if t[j].attribute == ATR_DIRECTORY && |part| == nameLength && t[j].name[..nameLength] == part {
            return;
          }
        }
        j := j + 1;
      }
    }

    method PushAt(n: nat, e: Entry)
      requires Shaped() && 0 < n <= MAX_DEPTH
      modifies dirPath, dirClusters
      ensures Stacked(n + 1) == Push(old(Stacked(n)), e) && dirClusters[n] == ClusterNo(e)
      ensures forall i :: 0 <= i <= MAX_DEPTH && i != n ==> dirClusters[i] == old(dirClusters[i])
      ensures forall m :: 0 <= m <= n ==> Stacked(m) == old(Stacked(m))
    {
      dirPath[n] := e.name;
      dirClusters[n] := ClusterNo(e);
    }

    /** Reads the directory at `currDepth` and pushes its child `part`, if it has one. */
    method StepDown(currDepth: nat, part: seq<byte>, ghost s: Shape, ghost rest: seq<seq<byte>>) returns (found: bool)
      requires Shaped() && driver.Valid() && currDepth < MAX_DEPTH && rest != [] && rest[0] == part
      requires Inv(driver.Vol(), s) && PartsOk(driver.Vol(), s, rest) && PathOk(driver.Vol(), s, Stacked(currDepth + 1))
      requires forall k :: 0 <= k <= currDepth ==> 0 <= dirClusters[k] < CLUSTER_MAP_SIZE
      modifies dirPath, dirClusters
      ensures PartsOk(driver.Vol(), s, rest[1..])
      ensures forall k :: 0 <= k <= currDepth ==> dirClusters[k] == old(dirClusters[k])
      ensures forall m :: 0 <= m <= currDepth + 1 ==> Stacked(m) == old(Stacked(m))
      ensures !found ==> DescendAll(driver.Vol(), Stacked(currDepth + 1), rest) == Failed
      ensures found ==>
                && 0 <= dirClusters[currDepth + 1] < CLUSTER_MAP_SIZE
                && PathOk(driver.Vol(), s, Stacked(currDepth + 2))
                && DescendAll(driver.Vol(), Stacked(currDepth + 1), rest)
                   == DescendAll(driver.Vol(), Stacked(currDepth + 2), rest[1..])
    {
      hide Inv, PathOk, Descend, OnDisk, FindFolder, TableOf, Pad, ClusterNo, PartsOk, DescendAll;
      DescendStep(driver.Vol(), s, Stacked(currDepth + 1), rest);
      var code, t := ReadCurrent(currDepth, s);
      if code != 0 {
        return false;
      }
      var j := Search(t, part);
      if j == TABLE_SIZE {
        return false;
      }
      PushAt(currDepth + 1, t[j]);
      return true;
    }

    /** The walk has got to `currDepth`, with `rest` of the components to go: where they
        lead from there is where all of them lead from the start. */
    ghost predicate Walking(s: Shape, start: Path, parts: seq<seq<byte>>, currDepth: nat, rest: seq<seq<byte>>)
      requires Valid()
      reads this, dirPath, dirClusters, driver.clusterMap, driver.disk.image
    {
      && depth <= currDepth && currDepth + |rest| <= MAX_DEPTH && Stack() == start
      && (forall k :: 0 <= k <= currDepth ==> 0 <= dirClusters[k] < CLUSTER_MAP_SIZE)
      && PartsOk(driver.Vol(), s, rest) && PathOk(driver.Vol(), s, Stacked(currDepth + 1))
      && DescendAll(driver.Vol(), start, parts) == DescendAll(driver.Vol(), Stacked(currDepth + 1), rest)
    }

    /** One component of the command taken and followed. */
    method TakeStep(command: seq<byte>, i: nat, length: nat, currDepth: nat,
                    ghost s: Shape, ghost start: Path, ghost parts: seq<seq<byte>>, ghost rest: seq<seq<byte>>)
      returns (found: bool, next: nat)
      requires Valid() && i < length < |command| && Inv(driver.Vol(), s)
      requires rest == Split(command[i..length]) && Walking(s, start, parts, currDepth, rest)
      modifies dirPath, dirClusters
      ensures Valid() && Stack() == old(Stack())
      ensures !found ==> DescendAll(driver.Vol(), start, parts) == Failed
      ensures found ==> i < next && rest != [] && Walking(s, start, parts, currDepth + 1, rest[1..])
      ensures found ==> rest[1..] == if next <= length then Split(command[next..length]) else []
    {
      hide Inv, PathOk, Split, DescendAll, FirstSlash, PartsOk, Stacked;
      SplitStep(command, i, length);
      FirstFits(driver.Vol(), s, rest);
      var part, end := TakePart(command, i, length);
      found := StepDown(currDepth, part, s, rest);
      next := end + 1;
      if end == length { SplitNothing([]); }
    }

    /** `cd` of a path: down its components one by one; the stack moves only when all are
        found. */
    method Down(command: seq<byte>, length: nat, ghost s: Shape)
      requires Valid() && 3 <= length < |command| && Inv(driver.Vol(), s) && PathOk(driver.Vol(), s, Stack())
      requires PartsOk(driver.Vol(), s, Split(command[3..length]))
      requires depth + |Split(command[3..length])| <= MAX_DEPTH && (depth > 0 || length > 3)
      modifies this, dirPath, dirClusters
      ensures Valid() && PathOk(driver.Vol(), s, Stack())
      ensures Stack() == Changed(driver.Vol(), old(Stack()), command[3..length])
    {
      hide Inv, PathOk, Split, DescendAll, FirstSlash, PartsOk, Stacked;
      ghost var start, parts := Stack(), Split(command[3..length]);
      ghost var rest := parts;
      var currDepth: nat := depth;
      var i: nat := 3;
      while i < length
        invariant 3 <= i && Valid() && Stack() == start && Walking(s, start, parts, currDepth, rest)
        invariant rest == if i <= length then Split(command[i..length]) else []
        invariant currDepth == depth ==> i == 3
        decreases length - i
      {
        var found, next := TakeStep(command, i, length, currDepth, s, start, parts, rest);
        if !found {
          return;
        }
        currDepth := currDepth + 1;
        rest := rest[1..];
        i := next;
      }
      SplitNothing(command[length..length]);
      DescendNothing(driver.Vol(), Stacked(currDepth + 1));
      depth := currDepth;
      parentCluster := dirClusters[currDepth - 1];
      currentCluster := dirClusters[currDepth];
    }

    /** The command `cd`. Anything that starts with "cd .." goes up, whatever follows. */
    method Cd(command: seq<byte>, length: nat, ghost s: Shape)
      requires Valid() && 3 <= length < |command| && 5 <= |command|
      requires Inv(driver.Vol(), s) && PathOk(driver.Vol(), s, Stack())
      requires command[..5] != CD_UP ==>
                 && PartsOk(driver.Vol(), s, Split(command[3..length]))
                 && depth + |Split(command[3..length])| <= MAX_DEPTH && (depth > 0 || length > 3)
      modifies this, dirPath, dirClusters
      ensures Valid() && PathOk(driver.Vol(), s, Stack())
      ensures Stack() == if command[..5] == CD_UP then Pop(old(Stack()))
                         else Changed(driver.Vol(), old(Stack()), command[3..length])
      ensures command[..3] == [0x63, 0x64, 0x20] && length >= 5 ==>
                Stack() == Command(driver.Vol(), old(Stack()), command[3..length])
    {
      hide Inv, PathOk, Split, Changed, Pop, PartsOk;
      UpIsCommand(command, length);
      if command[..5] == CD_UP {
        PopKeeps(driver.Vol(), s, Stack());
        Up();
      } else {
        Down(command, length, s);
      }
    }
  }

  /** The two clusters the shell's other commands work with are the directory it stands on
      and the one that directory's entry is in. */
  lemma StandsOn(shell: Shell, s: Shape)
    requires shell.Valid() && Inv(shell.driver.Vol(), s) && PathOk(shell.driver.Vol(), s, shell.Stack())
    ensures shell.currentCluster in s.depth && s.depth[shell.currentCluster] == shell.depth
    ensures shell.depth == 0 ==> shell.currentCluster == 2 == shell.parentCluster
    ensures shell.depth > 0 ==>
              shell.currentCluster in s.home && s.home[shell.currentCluster].0 == shell.parentCluster
  {
    hide Inv;
    var p := shell.Stack();
    assert StepOk(shell.driver.Vol(), s, p, shell.depth);
    if shell.depth > 0 { assert StepOk(shell.driver.Vol(), s, p, shell.depth - 1); }
  }

  lemma UpIsCommand(command: seq<byte>, length: nat)
    requires 3 <= length < |command| && 5 <= |command|
    ensures command[..3] == [0x63, 0x64, 0x20] && length >= 5 ==>
              (command[..5] == CD_UP <==> StartsUp(command[3..length]))
  {
    if command[..3] == [0x63, 0x64, 0x20] && length >= 5 {
      assert command[..5] == command[..3] + [command[3], command[4]];
      assert CD_UP == CD_UP[..3] + [DOT, DOT];
    }
  }

  /** Components that fit the shell's name buffer and that no left-over entry reads as. */
  ghost predicate PartsOk(v: Volume, s: Shape, parts: seq<seq<byte>>) {
    forall k :: 0 <= k < |parts| ==> |parts[k]| <= 8 && ClearOf(v, s, parts[k])
  }

  lemma FirstFits(v: Volume, s: Shape, parts: seq<seq<byte>>)
    requires PartsOk(v, s, parts) && parts != []
    ensures |parts[0]| <= 8
  {
  }

  lemma DescendNothing(v: Volume, p: Path)
    ensures DescendAll(v, p, []) == Standing(p)
  {
  }

  lemma SplitNothing(s: seq<byte>)
    requires s == []
    ensures Split(s) == []
  {
  }

  /** The first component of what is left of a command, and the rest. */
  lemma SplitStep(command: seq<byte>, i: nat, length: nat)
    requires i < length <= |command|
    ensures var parts, n := Split(command[i..length]), FirstSlash(command[i..length]);
            && parts != [] && i + n <= length && parts[0] == command[i..i + n]
            && parts[1..] == if i + n < length then Split(command[i + n + 1..length]) else []
  {
    var s, n := command[i..length], FirstSlash(command[i..length]);
    assert s[..n] == command[i..i + n];
    if n < |s| { assert s[n + 1..] == command[i + n + 1..length]; }
  }

  /** One component taken: either the walk fails here or it goes on from the child. */
  lemma DescendStep(v: Volume, s: Shape, p: Path, parts: seq<seq<byte>>)
    requires Inv(v, s) && PathOk(v, s, p) && parts != [] && PartsOk(v, s, parts)
    ensures OnDisk(v, p) && PartsOk(v, s, parts[1..])
    ensures var t := v.Dir(Last(p));
            var j := FindFolder(t, parts[0]);
            && |t| == TABLE_SIZE
            && (j == TABLE_SIZE ==> DescendAll(v, p, parts) == Failed)
            && (j < TABLE_SIZE ==>
                  && PathOk(v, s, Push(p, t[j])) && ClusterNo(t[j]) < CLUSTER_MAP_SIZE
                  && DescendAll(v, p, parts) == DescendAll(v, Push(p, t[j]), parts[1..]))
  {
    hide TableOf, TreeInv, HeapInv, HeaderOk, ClearOf, FindFolder, ClusterNo;
    DescendKeeps(v, s, p, parts[0]);
    var j := FindFolder(v.Dir(Last(p)), parts[0]);
    if j < TABLE_SIZE {
      var q := Push(p, v.Dir(Last(p))[j]);
      assert StepOk(v, s, q, |q.clusters| - 1);
    }
  }
}
