/** Path names and the stack of directories the shell stands on, as values. */
module Paths {
  import opened Layout
  import opened Volume
  import opened Heap
  import opened Tree
  import opened Consistency
  import opened Names
  import opened Runs

  const SLASH: byte := 0x2F
  const MAX_DEPTH := 9

  // -- Names as C strings --

  /** Bytes before the first zero. */
  function NameLength(name: seq<byte>, from: nat := 0): (n: nat)
    requires from <= |name|
    ensures from <= n <= |name|
    ensures forall i :: from <= i < n ==> name[i] != 0
    ensures n < |name| ==> name[n] == 0
    decreases |name| - from
  {
    if from == |name| || name[from] == 0 then from else NameLength(name, from + 1)
  }

  function Pad(part: seq<byte>): (name: Name)
    requires |part| <= 8
  {
    part + seq(8 - |part|, _ => 0)
  }

  /** Nothing but zeros after the first zero, and something before it. */
  predicate IsPadded(name: Name) {
    0 < NameLength(name) && forall i :: NameLength(name) <= i < |name| ==> name[i] == 0
  }

  lemma PaddedIs(name: Name, part: seq<byte>)
    requires IsPadded(name) && |part| <= 8 && forall i :: 0 <= i < |part| ==> part[i] != 0
    ensures name == Pad(part) <==> NameLength(name) == |part| && name[..|part|] == part
  {
    var p := Pad(part);
    if name == p {
      assert forall i :: 0 <= i < |part| ==> name[i] == part[i];
      assert |part| < 8 ==> name[|part|] == 0;
      assert name[..|part|] == part;
    }
    if NameLength(name) == |part| && name[..|part|] == part {
      forall i | 0 <= i < 8 ensures name[i] == p[i] {
        if i < |part| { assert name[i] == name[..|part|][i]; }
      }
    }
  }

  // -- Splitting a path --

  function FirstSlash(s: seq<byte>, from: nat := 0): (i: nat)
    requires from <= |s|
    ensures from <= i <= |s|
    ensures forall k :: from <= k < i ==> s[k] != SLASH
    ensures i < |s| ==> s[i] == SLASH
    decreases |s| - from
  {
    if from == |s| || s[from] == SLASH then from else FirstSlash(s, from + 1)
  }

  /** The components between slashes; a slash at the very end adds none. */
  function Split(s: seq<byte>): (parts: seq<seq<byte>>)
    decreases |s|
  {
    if s == [] then []
    else
      var i := FirstSlash(s);
      [s[..i]] + if i < |s| then Split(s[i + 1..]) else []
  }

  function Join(parts: seq<seq<byte>>): (s: seq<byte>)
  {
    if parts == [] then [] else if |parts| == 1 then parts[0] else parts[0] + [SLASH] + Join(parts[1..])
  }

  lemma SplitFirst(part: seq<byte>, rest: seq<byte>)
    requires SLASH !in part
    ensures Split(part + [SLASH] + rest) == [part] + Split(rest)
  {
    var s := part + [SLASH] + rest;
    assert s[|part|] == SLASH;
    assert forall k :: 0 <= k < |part| ==> s[k] == part[k];
    assert FirstSlash(s) == |part|;
    assert s[..|part|] == part && s[|part| + 1..] == rest;
  }

  lemma SplitWhole(part: seq<byte>)
    requires SLASH !in part && part != []
    ensures Split(part) == [part]
  {
    assert FirstSlash(part) == |part| && part[..|part|] == part;
  }

  /** Splitting undoes joining, for parts without slashes of which the last is not empty. */
  lemma {:induction false} SplitJoin(parts: seq<seq<byte>>)
    requires forall i :: 0 <= i < |parts| ==> SLASH !in parts[i]
    requires parts != [] ==> parts[|parts| - 1] != []
    ensures Split(Join(parts)) == parts
  {
    if |parts| == 1 {
      SplitWhole(parts[0]);
    } else if |parts| > 1 {
      SplitJoin(parts[1..]);
      SplitFirst(parts[0], Join(parts[1..]));
    }
  }

  /** A path `a/b` has the components of `a`, then those of `b`. */
  lemma {:induction false} SplitSlash(a: seq<byte>, b: seq<byte>)
    requires a != [] && a[|a| - 1] != SLASH
    ensures Split(a + [SLASH] + b) == Split(a) + Split(b)
    decreases |a|
  {
    hide Split;
    var i := FirstSlash(a);
    if i == |a| {
      SplitFirst(a, b);
      SplitWhole(a);
    } else {
      var head, rest := a[..i], a[i + 1..];
      SplitSlash(rest, b);
      SplitFirst(head, rest);
      SplitFirst(head, rest + [SLASH] + b);
      Regroup(a, i, b);
      assert [head] + (Split(rest) + Split(b)) == ([head] + Split(rest)) + Split(b);
    }
  }

  /** `a/` ends in two slashes, or is one: it has an empty component, and no folder's name is
      empty. */
  predicate Gap(a: seq<byte>) {
    a == [] || a[|a| - 1] == SLASH
  }

  /** Where `a/` ends in two slashes, or is one, there is an empty component in between. */
  lemma {:induction false} SplitGap(a: seq<byte>, b: seq<byte>)
    requires Gap(a)
    ensures Split(a + [SLASH] + b) == Split(a) + ([[]] + Split(b))
    decreases |a|
  {
    hide Split;
    if a == [] {
      SplitFirst([], b);
      SplitNone();
      assert [] + [SLASH] + b == a + [SLASH] + b;
    } else {
      var i := FirstSlash(a);
      var head, rest := a[..i], a[i + 1..];
      SplitGap(rest, b);
      SplitFirst(head, rest);
      SplitFirst(head, rest + [SLASH] + b);
      Regroup(a, i, b);
      assert [head] + (Split(rest) + ([[]] + Split(b))) == ([head] + Split(rest)) + ([[]] + Split(b));
    }
  }

  lemma SplitNone()
    ensures Split([]) == []
  {
  }

  lemma Regroup(a: seq<byte>, i: nat, b: seq<byte>)
    requires i < |a| && a[i] == SLASH
    ensures a == a[..i] + [SLASH] + a[i + 1..]
    ensures a + [SLASH] + b == a[..i] + [SLASH] + (a[i + 1..] + [SLASH] + b)
  {
  }

  // -- Looking for a folder --

  /** The shell's test of an entry: it does not look whether the entry is live. */
  predicate Matches(e: Entry, part: seq<byte>) {
    e.name[0] != 0 && e.attribute == ATR_DIRECTORY && NameLength(e.name) == |part| && e.name[..|part|] == part
  }

  function FindFolder(t: Table, part: seq<byte>, from: nat := 1): (j: nat)
    requires from <= |t|
    ensures from <= j <= |t|
    ensures forall k :: from <= k < j ==> !Matches(t[k], part)
    ensures j < |t| ==> Matches(t[j], part)
    decreases |t| - from
  {
    if from == |t| || Matches(t[from], part) then from else FindFolder(t, part, from + 1)
  }

  // -- The stack of directories --

  /** From the root down to where the shell stands: clusters and names. */
  datatype Path = Path(clusters: seq<nat>, names: seq<Name>)

  const ROOT_PATH := Path([ROOT_CLUSTER_NUMBER], [ROOT_NAME])

  function Last(p: Path): nat
    requires p.clusters != []
  {
    p.clusters[|p.clusters| - 1]
  }

  function Push(p: Path, e: Entry): Path {
    Path(p.clusters + [ClusterNo(e)], p.names + [e.name])
  }

  function Pop(p: Path): Path
    requires |p.clusters| == |p.names| > 0
  {
    if |p.clusters| == 1 then p else Path(p.clusters[..|p.clusters| - 1], p.names[..|p.names| - 1])
  }

  /** The stack after going down one component, or the failure to. */
  datatype Walk = Failed | Standing(path: Path)

  ghost predicate OnDisk(v: Volume, p: Path) {
    0 < |p.clusters| == |p.names| && Last(p) < |v.raw| && |v.Dir(Last(p))| == TABLE_SIZE
  }

  ghost function Descend(v: Volume, p: Path, part: seq<byte>): Walk
    requires OnDisk(v, p)
  {
    var t := v.Dir(Last(p));
    var j := FindFolder(t, part);
    if j == |t| then Failed else Standing(Push(p, t[j]))
  }

  ghost function DescendAll(v: Volume, p: Path, parts: seq<seq<byte>>): Walk
    decreases |parts|
  {
    if parts == [] then Standing(p)
    else if !OnDisk(v, p) then Failed
    else
      match Descend(v, p, parts[0])
      case Failed => Failed
      case Standing(down) => DescendAll(v, down, parts[1..])
  }

  lemma {:induction false} DescendAppend(v: Volume, p: Path, xs: seq<seq<byte>>, ys: seq<seq<byte>>)
    ensures DescendAll(v, p, xs + ys) ==
            match DescendAll(v, p, xs)
            case Failed => if xs == [] then DescendAll(v, p, ys) else Failed
            case Standing(mid) => DescendAll(v, mid, ys)
    decreases |xs|
  {
    if xs == [] {
      assert xs + ys == ys;
    } else {
      assert (xs + ys)[1..] == xs[1..] + ys;
      if OnDisk(v, p) && Descend(v, p, xs[0]).Standing? {
        DescendAppend(v, Descend(v, p, xs[0]).path, xs[1..], ys);
      }
    }
  }

  /** Where `cd` of a path leaves the stack: at its end when every component is found,
      else where it was. */
  ghost function Changed(v: Volume, p: Path, s: seq<byte>): Path {
    match DescendAll(v, p, Split(s))
    case Failed => p
    case Standing(there) => there
  }

  lemma {:induction false} DescendLengthens(v: Volume, p: Path, parts: seq<seq<byte>>)
    ensures var w := DescendAll(v, p, parts); w.Standing? ==> |w.path.clusters| == |p.clusters| + |parts|
    decreases |parts|
  {
    if parts != [] && OnDisk(v, p) && Descend(v, p, parts[0]).Standing? {
      DescendLengthens(v, Descend(v, p, parts[0]).path, parts[1..]);
    }
  }

  lemma {:induction false} DescendNames(v: Volume, p: Path, parts: seq<seq<byte>>)
    ensures var w := DescendAll(v, p, parts); w.Standing? ==> |w.path.names| == |p.names| + |parts|
    decreases |parts|
  {
    if parts != [] && OnDisk(v, p) && Descend(v, p, parts[0]).Standing? {
      DescendNames(v, Descend(v, p, parts[0]).path, parts[1..]);
    }
  }

  // -- The command --

  const DOT: byte := 0x2E

  predicate StartsUp(s: seq<byte>) {
    |s| >= 2 && s[0] == s[1] == DOT
  }

  /** Where the command `cd s` leaves the stack. Whatever starts with ".." goes up one
      directory and no further. */
  ghost function Command(v: Volume, p: Path, s: seq<byte>): Path
    requires |p.clusters| == |p.names| > 0
  {
    if StartsUp(s) then Pop(p) else Changed(v, p, s)
  }

  lemma CommandShaped(v: Volume, p: Path, s: seq<byte>)
    requires |p.clusters| == |p.names| > 0
    ensures |Command(v, p, s).clusters| == |Command(v, p, s).names| > 0
  {
    DescendLengthens(v, p, Split(s));
    DescendNames(v, p, Split(s));
  }

  /** The components of `s` lead nowhere from `p`, or there are none. */
  ghost predicate Stays(v: Volume, p: Path, s: seq<byte>) {
    s == [] || DescendAll(v, p, Split(s)).Failed?
  }

  /** When `cd a/b` ends where `cd a` and then `cd b` do. A path that starts with ".." is
      not followed past it; a ".." inside a path is the name of a folder; an empty component
      is never found; and a path that fails halfway leaves the stack, while of two commands
      each goes its way. */
  ghost predicate Composes(v: Volume, p: Path, a: seq<byte>, b: seq<byte>)
    requires |p.clusters| == |p.names| > 0
  {
    var first := DescendAll(v, p, Split(a));
    if StartsUp(a) then
      if StartsUp(b) then |p.clusters| <= 2 else Stays(v, Pop(p), b)
    else if StartsUp(b) then
      if Stays(v, p, a) then |p.clusters| == 1
      else if Gap(a) then SLASH !in a[..|a| - 1]
      else SLASH !in a && DescendAll(v, first.path, Split(b)).Failed?
    else if Gap(a) then
      Stays(v, p, a) && Stays(v, p, b)
    else
      b == [] || (first.Standing? <==> DescendAll(v, Changed(v, p, a), Split(b)).Standing?)
  }

  /** For any two strings, empty ones and ones that end in a slash included. */
  lemma CdComposesIff(v: Volume, p: Path, a: seq<byte>, b: seq<byte>)
    requires |p.clusters| == |p.names| > 0
    ensures |Command(v, p, a).clusters| == |Command(v, p, a).names| > 0
    ensures Command(v, p, a + [SLASH] + b) == Command(v, Command(v, p, a), b) <==> Composes(v, p, a, b)
  {
    hide Split, Descend, DescendAll, OnDisk;
    CommandShaped(v, p, a);
    FirstTwo(a, b);
    if StartsUp(a) {
      StaysIff(v, Pop(p), b);
    } else if Gap(a) {
      GapFails(v, p, a, b);
      GapThen(v, p, a, b);
    } else {
      NoGapThen(v, p, a, b);
    }
  }

  /** A path stays exactly when `cd` of it leaves the stack as it is. */
  lemma StaysIff(v: Volume, p: Path, s: seq<byte>)
    ensures Changed(v, p, s) == p <==> Stays(v, p, s)
    ensures !Stays(v, p, s) ==> s != [] && DescendAll(v, p, Split(s)).Standing?
                                && |Changed(v, p, s).clusters| == |p.clusters| + |Split(s)| > |p.clusters|
                                && |Changed(v, p, s).names| == |p.names| + |Split(s)|
  {
    hide Split, Descend, DescendAll, OnDisk;
    DescendLengthens(v, p, Split(s));
    DescendNames(v, p, Split(s));
    if s == [] {
      NoParts(v, p);
    } else {
      SplitSome(s);
    }
  }

  lemma NoParts(v: Volume, p: Path)
    ensures Split([]) == [] && DescendAll(v, p, []) == Standing(p)
  {
  }

  /** An empty component is never found. */
  lemma EmptyFails(v: Volume, p: Path, rest: seq<seq<byte>>)
    ensures DescendAll(v, p, [[]] + rest).Failed?
  {
    assert forall e: Entry :: NameLength(e.name) == 0 ==> e.name[0] == 0;
  }

  lemma GapFails(v: Volume, p: Path, a: seq<byte>, b: seq<byte>)
    requires Gap(a)
    ensures DescendAll(v, p, Split(a + [SLASH] + b)).Failed?
  {
    hide Split, Descend, DescendAll, OnDisk;
    SplitGap(a, b);
    DescendAppend(v, p, Split(a), [[]] + Split(b));
    NoParts(v, p);
    match DescendAll(v, p, Split(a)) {
      case Failed =>
      case Standing(mid) => EmptyFails(v, mid, Split(b));
    }
  }

  lemma GapThen(v: Volume, p: Path, a: seq<byte>, b: seq<byte>)
    requires |p.clusters| == |p.names| > 0 && Gap(a) && !StartsUp(a)
    requires |Command(v, p, a).clusters| == |Command(v, p, a).names| > 0
    ensures Command(v, Command(v, p, a), b) == p <==> Composes(v, p, a, b)
  {
    hide Split, Descend, DescendAll, OnDisk;
    StaysIff(v, p, a);
    StaysIff(v, Changed(v, p, a), b);
    if StartsUp(b) && !Stays(v, p, a) { OnePart(v, p, a); }
  }

  lemma NoGapThen(v: Volume, p: Path, a: seq<byte>, b: seq<byte>)
    requires |p.clusters| == |p.names| > 0 && !Gap(a) && !StartsUp(a)
    requires |Command(v, p, a).clusters| == |Command(v, p, a).names| > 0
    ensures Changed(v, p, a + [SLASH] + b) == Command(v, Command(v, p, a), b) <==> Composes(v, p, a, b)
  {
    hide Split, Descend, DescendAll, OnDisk;
    SplitSlash(a, b);
    SplitSome(a);
    DescendAppend(v, p, Split(a), Split(b));
    StaysIff(v, p, a);
    StaysIff(v, Changed(v, p, a), b);
    if b == [] {
      NoParts(v, Changed(v, p, a));
    } else {
      SplitSome(b);
      DescendLengthens(v, p, Split(a));
      DescendLengthens(v, Changed(v, p, a), Split(b));
      if StartsUp(b) { OnePart(v, p, a); }
    }
  }

  lemma FirstTwo(a: seq<byte>, b: seq<byte>)
    ensures StartsUp(a + [SLASH] + b) <==> StartsUp(a)
  {
    if a != [] { assert (a + [SLASH] + b)[0] == a[0]; }
  }

  lemma SplitSome(s: seq<byte>)
    requires s != []
    ensures Split(s) != []
  {
  }

  /** One up from the end of `a` is where `a` began exactly when `a` is one component. */
  lemma OnePart(v: Volume, p: Path, a: seq<byte>)
    requires |p.clusters| == |p.names| > 0 && a != []
    ensures var w := DescendAll(v, p, Split(a));
            w.Standing? ==>
              |w.path.clusters| == |w.path.names| > 1 && (Pop(w.path) == p <==> SLASH !in a[..|a| - 1])
  {
    hide Descend, OnDisk, Split, DescendAll;
    DescendLengthens(v, p, Split(a));
    DescendNames(v, p, Split(a));
    SplitSome(a);
    var w := DescendAll(v, p, Split(a));
    if SLASH in a[..|a| - 1] {
      SlashSplits(a);
    } else if w.Standing? {
      OneSplits(a);
      assert Split(a) == [Split(a)[0]];
      DescendOne(v, p, Split(a)[0]);
      PopUndoesPush(v, p, Split(a)[0]);
    }
  }

  lemma DescendOne(v: Volume, p: Path, part: seq<byte>)
    ensures DescendAll(v, p, [part]).Standing? ==> OnDisk(v, p) && Descend(v, p, part) == DescendAll(v, p, [part])
  {
    hide Descend, OnDisk;
    if OnDisk(v, p) && Descend(v, p, part).Standing? { assert [part][1..] == []; }
  }

  lemma SlashSplits(a: seq<byte>)
    requires a != [] && SLASH in a[..|a| - 1]
    ensures |Split(a)| >= 2
  {
    var i := FirstSlash(a);
    var k :| 0 <= k < |a| - 1 && a[..|a| - 1][k] == SLASH;
    assert a[k] == SLASH;
    SplitSome(a[i + 1..]);
  }

  lemma OneSplits(a: seq<byte>)
    requires a != [] && SLASH !in a[..|a| - 1]
    ensures |Split(a)| == 1
  {
    var front := a[..|a| - 1];
    if a[|a| - 1] == SLASH {
      SplitFirst(front, []);
      assert a == front + [SLASH] + [];
    } else {
      assert a == front + [a[|a| - 1]];
      SplitWhole(a);
    }
  }

  /** In bytes: two dots, and whatever follows them, go up; "a/b" goes to "a" and from there
      to "b"; a name alone goes to the folder of that name. */
  lemma CommandTyped(v: Volume, p: Path, a: seq<byte>, b: seq<byte>)
    requires |p.clusters| == |p.names| > 0
    ensures Command(v, p, [0x2E, 0x2E] + a) == Pop(p)
    ensures 0x2F !in a && a != [] && a[0] != 0x2E ==>
              && Command(v, p, a) == (match DescendAll(v, p, [a]) case Failed => p case Standing(q) => q)
              && Command(v, p, a + [0x2F] + b)
                 == (match DescendAll(v, p, [a] + Split(b)) case Failed => p case Standing(q) => q)
  {
    hide Split, Descend, DescendAll, OnDisk;
    if 0x2F !in a && a != [] {
      SplitFirst(a, b);
      SplitWhole(a);
      FirstTwo(a, b);
    }
  }

  /** `cd ../b` goes up and no further, where `cd ..` and `cd b` end in `b`. */
  lemma UpThenDown(v: Volume, p: Path, b: seq<byte>)
    requires |p.clusters| == |p.names| > 0 && b != [] && !StartsUp(b)
    requires DescendAll(v, Pop(p), Split(b)).Standing?
    ensures Command(v, p, [DOT, DOT] + [SLASH] + b) == Pop(p)
    ensures Command(v, Command(v, p, [DOT, DOT]), b) == DescendAll(v, Pop(p), Split(b)).path != Pop(p)
  {
    hide Descend, OnDisk, DescendAll;
    DescendLengthens(v, Pop(p), Split(b));
  }

  /** `cd x` and `cd ..` give back the stack. */
  lemma PopUndoesPush(v: Volume, p: Path, part: seq<byte>)
    requires OnDisk(v, p) && Descend(v, p, part).Standing?
    ensures Pop(Descend(v, p, part).path) == p
  {
    var q := Descend(v, p, part).path;
    assert q.clusters[..|p.clusters|] == p.clusters && q.names[..|p.names|] == p.names;
  }

  // -- Standing in the tree --

  /** No entry is left over from a deleted folder, and live names read as C strings. */
  ghost predicate Tidy(v: Volume, s: Shape) {
    forall d :: d in s.depth && d < |v.raw| ==> TidyTable(v.Dir(d))
  }

  ghost predicate TidyTable(t: Table) {
    forall j :: 0 <= j < |t| ==>
      if Live(t[j]) then IsPadded(t[j].name) else t[j].name == NO_NAME && t[j].attribute != ATR_DIRECTORY
  }

  /** No entry left over from a deleted folder reads as this component. */
  ghost predicate ClearOf(v: Volume, s: Shape, part: seq<byte>) {
    forall d :: d in s.depth && d < |v.raw| ==> ClearTable(v.Dir(d), part)
  }

  ghost predicate ClearTable(t: Table, part: seq<byte>) {
    forall j :: 0 <= j < |t| && !Live(t[j]) ==> !Matches(t[j], part)
  }

  lemma TidyIsClear(v: Volume, s: Shape, part: seq<byte>)
    requires Tidy(v, s)
    ensures ClearOf(v, s, part)
  {
    hide TableOf, IsPadded;
    forall d | d in s.depth && d < |v.raw| ensures ClearTable(v.Dir(d), part) { assert TidyTable(v.Dir(d)); }
  }

  /** The stack follows the tree from the root down. */
  ghost predicate PathOk(v: Volume, s: Shape, p: Path)
    requires |v.raw| == CLUSTER_MAP_SIZE
  {
    && 0 < |p.clusters| == |p.names|
    && p.clusters[0] == ROOT_CLUSTER_NUMBER
    && (forall i :: 0 <= i < |p.clusters| ==> StepOk(v, s, p, i))
  }

  ghost predicate StepOk(v: Volume, s: Shape, p: Path, i: nat)
    requires |v.raw| == CLUSTER_MAP_SIZE && i < |p.clusters| == |p.names|
  {
    var c := p.clusters[i];
    && c in s.depth && c < CLUSTER_MAP_SIZE && |v.Dir(c)| == TABLE_SIZE && p.names[i] == v.Dir(c)[0].name
    && s.depth[c] == i
    && (i > 0 ==> c in s.home && s.home[c].0 == p.clusters[i - 1])
  }

  lemma RootPathOk(v: Volume, s: Shape)
    requires Inv(v, s)
    ensures PathOk(v, s, ROOT_PATH)
  {
    hide TableOf, TreeInv, HeapInv, HeaderOk, NamesOk;
    var ts := TablesOf(v.raw, s.depth.Keys);
    DepthKeys(ts, s);
    DirAt(v, s, ROOT_CLUSTER_NUMBER);
    At(ts, s, ROOT_CLUSTER_NUMBER);
    assert StepOk(v, s, ROOT_PATH, 0);
  }

  lemma PopKeeps(v: Volume, s: Shape, p: Path)
    requires |v.raw| == CLUSTER_MAP_SIZE && PathOk(v, s, p)
    ensures PathOk(v, s, Pop(p))
  {
    var q := Pop(p);
    forall i | 0 <= i < |q.clusters| ensures StepOk(v, s, q, i) {
      assert StepOk(v, s, p, i);
    }
  }

  /** Every name, of live entries and dead ones, is blank or reads as a C string. */
  ghost predicate Readable(v: Volume, s: Shape) {
    forall d :: d in s.depth && d < |v.raw| ==> ReadableTable(v.Dir(d))
  }

  ghost predicate ReadableTable(t: Table) {
    forall j :: 0 <= j < |t| ==> t[j].name == NO_NAME || IsPadded(t[j].name)
  }

  /** Slot `j` of directory `d` leads to the child directory of that name. */
  ghost predicate IsChild(v: Volume, s: Shape, d: nat, j: nat, part: seq<byte>)
    requires d < |v.raw| && j < |v.Dir(d)| && |part| <= 8
  {
    var c := ClusterNo(v.Dir(d)[j]);
    Live(v.Dir(d)[j]) && v.Dir(d)[j].name == Pad(part) && c in s.depth && c in s.home && s.home[c] == (d, j)
  }

  /** Some directory under `d` has this name. */
  ghost predicate HasChild(v: Volume, s: Shape, d: nat, part: seq<byte>)
    requires |part| <= 8
  {
    exists c :: c in s.home && c in s.depth && s.home[c].0 == d && d < |v.raw| && s.home[c].1 < |v.Dir(d)|
                && v.Dir(d)[s.home[c].1].name == Pad(part)
  }

  /** The shell's search for a folder finds the child directory of that name whenever there
      is one: a folder left over under the same name comes later. All else it may find is
      left over, so with nothing left over that reads as the name it finds nothing else. */
  lemma FindFolderIs(v: Volume, s: Shape, d: nat, part: seq<byte>)
    requires Inv(v, s) && Readable(v, s) && d in s.depth && d < CLUSTER_MAP_SIZE && |v.Dir(d)| == TABLE_SIZE
    requires |part| <= 8 && forall i :: 0 <= i < |part| ==> part[i] != 0
    ensures var j := FindFolder(v.Dir(d), part);
            && (HasChild(v, s, d, part) <==> j < TABLE_SIZE && Live(v.Dir(d)[j]))
            && (HasChild(v, s, d, part) ==> IsChild(v, s, d, j, part))
            && (ClearOf(v, s, part) ==> (HasChild(v, s, d, part) <==> j < TABLE_SIZE))
  {
    hide TableOf, TreeInv, HeapInv, HeaderOk, NamesOk, Pad, ClusterNo, FindFolder, Readable, TablesOf, Matches, IsChild;
    var t, j := v.Dir(d), FindFolder(v.Dir(d), part);
    MatchedFolder(t, part);
    if j < TABLE_SIZE && Live(t[j]) { LiveIsChild(v, s, d, part); }
    if c :| c in s.home && c in s.depth && s.home[c].0 == d && s.home[c].1 < TABLE_SIZE
            && t[s.home[c].1].name == Pad(part)
    {
      ChildFound(v, s, c, part);
      ChildIsLive(v, s, d, j, part);
    }
    assert ClearOf(v, s, part) ==> ClearTable(t, part);
  }

  lemma ChildIsLive(v: Volume, s: Shape, d: nat, j: nat, part: seq<byte>)
    requires d < |v.raw| && j < |v.Dir(d)| && |part| <= 8 && IsChild(v, s, d, j, part)
    ensures Live(v.Dir(d)[j]) && HasChild(v, s, d, part)
  {
    hide TableOf, Pad;
  }

  /** A live entry the search stops at leads to the child of that name. */
  lemma LiveIsChild(v: Volume, s: Shape, d: nat, part: seq<byte>)
    requires Inv(v, s) && Readable(v, s) && d in s.depth && d < CLUSTER_MAP_SIZE && |v.Dir(d)| == TABLE_SIZE
    requires |part| <= 8 && forall i :: 0 <= i < |part| ==> part[i] != 0
    requires FindFolder(v.Dir(d), part) < TABLE_SIZE && Live(v.Dir(d)[FindFolder(v.Dir(d), part)])
    ensures IsChild(v, s, d, FindFolder(v.Dir(d), part), part) && HasChild(v, s, d, part)
  {
    hide TableOf, TreeInv, HeapInv, HeaderOk, NamesOk, IsPadded, Pad, ClusterNo, Clusters, NameLength, FindFolder,
      TablesOf, Matches, Walkable, Chain;
    var t, j := v.Dir(d), FindFolder(v.Dir(d), part);
    assert ReadableTable(t);
    MatchedFolder(t, part);
    MatchedName(t[j], part);
    LiveEntryAt(v, s, d, j);
  }

  /** A readable entry that matches has the component for its name, and conversely. */
  lemma MatchedName(e: Entry, part: seq<byte>)
    requires e.name == NO_NAME || IsPadded(e.name)
    requires |part| <= 8 && forall i :: 0 <= i < |part| ==> part[i] != 0
    ensures Matches(e, part) <==> e.attribute == ATR_DIRECTORY && e.name == Pad(part) && IsPadded(e.name)
  {
    hide IsPadded, Pad, NameLength;
    if IsPadded(e.name) {
      PaddedIs(e.name, part);
      FirstByte(e.name);
    } else {
      BlankNotPadded();
    }
  }

  lemma BlankNotPadded()
    ensures NO_NAME[0] == 0 && !IsPadded(NO_NAME)
  {
  }

  lemma ChildFound(v: Volume, s: Shape, c: nat, part: seq<byte>)
    requires Inv(v, s) && Readable(v, s) && c in s.home && c in s.depth
    requires |part| <= 8 && forall i :: 0 <= i < |part| ==> part[i] != 0
    requires s.home[c].0 < |v.raw| && s.home[c].1 < |v.Dir(s.home[c].0)|
    requires v.Dir(s.home[c].0)[s.home[c].1].name == Pad(part)
    ensures IsChild(v, s, s.home[c].0, s.home[c].1, part)
    ensures FindFolder(v.Dir(s.home[c].0), part) == s.home[c].1
  {
    hide TableOf, TreeInv, HeapInv, HeaderOk, NamesOk, IsPadded, Pad, ClusterNo, Clusters, NameLength, TablesOf,
      Matches;
    var (d, k) := s.home[c];
    var t, j := v.Dir(d), FindFolder(v.Dir(d), part);
    ChildKnowsParent(v, s, c);
    assert ReadableTable(t);
    LiveEntryAt(v, s, d, k);
    MatchedName(t[k], part);
    MatchedFolder(t, part);
    if j < k {
      MatchedName(t[j], part);
      SearchFindsLive(t, k) by { NamesAt(v, s, d); }
    }
  }

  lemma FirstByte(name: Name)
    requires IsPadded(name)
    ensures name[0] != 0
  {
  }

  lemma PathEnd(v: Volume, s: Shape, p: Path)
    requires |v.raw| == CLUSTER_MAP_SIZE && PathOk(v, s, p)
    ensures OnDisk(v, p) && Last(p) in s.depth && Last(p) < CLUSTER_MAP_SIZE
    ensures s.depth[Last(p)] + 1 == |p.clusters| && p.names[|p.names| - 1] == v.Dir(Last(p))[0].name
    ensures |p.clusters| > 1 ==> Last(p) in s.home && s.home[Last(p)].0 == p.clusters[|p.clusters| - 2]
  {
    assert StepOk(v, s, p, |p.clusters| - 1);
  }

  /** A live folder entry of the directory at the end extends the stack. */
  lemma PushChild(v: Volume, s: Shape, p: Path, j: nat)
    requires Inv(v, s) && PathOk(v, s, p) && Last(p) < CLUSTER_MAP_SIZE && 1 <= j < |v.Dir(Last(p))|
    requires Live(v.Dir(Last(p))[j]) && v.Dir(Last(p))[j].attribute == ATR_DIRECTORY
    ensures PathOk(v, s, Push(p, v.Dir(Last(p))[j]))
    ensures var c := ClusterNo(v.Dir(Last(p))[j]); c in s.depth && c in s.home && s.home[c] == (Last(p), j)
  {
    hide TableOf, TreeInv, HeapInv, HeaderOk, NamesOk, IsPadded, Clusters, ClusterNo, TablesOf, Walkable, Chain;
    PathEnd(v, s, p);
    LiveEntryAt(v, s, Last(p), j);
    var q := Push(p, v.Dir(Last(p))[j]);
    ChildKnowsParent(v, s, Last(q));
    forall i | 0 <= i < |q.clusters| ensures StepOk(v, s, q, i) {
      if i < |p.clusters| { assert StepOk(v, s, p, i); }
    }
  }

  /** Going down one component keeps the stack on the tree exactly when the entry taken is
      live: the shell does not look. */
  lemma DescendOnTreeIff(v: Volume, s: Shape, p: Path, part: seq<byte>)
    requires Inv(v, s) && PathOk(v, s, p)
    ensures OnDisk(v, p)
    ensures var t := v.Dir(Last(p));
            var j := FindFolder(t, part);
            j < |t| ==> (PathOk(v, s, Descend(v, p, part).path) <==> Live(t[j]))
  {
    hide TableOf, TreeInv, HeapInv, HeaderOk, NamesOk, Clusters, ClusterNo, FindFolder, TablesOf, Walkable, Chain,
      Push, PathOk, Matches;
    PathEnd(v, s, p);
    var t := v.Dir(Last(p));
    var j := FindFolder(t, part);
    if j < |t| {
      MatchedFolder(t, part);
      if Live(t[j]) {
        PushChild(v, s, p, j);
      } else if PathOk(v, s, Push(p, t[j])) {
        DeadNotPushed(v, s, p, part);
      }
    }
  }

  lemma MatchedFolder(t: Table, part: seq<byte>)
    requires 1 <= |t|
    ensures var j := FindFolder(t, part);
            1 <= j && (j < |t| ==> t[j].attribute == ATR_DIRECTORY && Matches(t[j], part))
    ensures forall k :: 1 <= k < FindFolder(t, part) ==> !Matches(t[k], part)
  {
  }

  /** A dead entry leads to no child of its own name: a live entry of that name would have
      been found first. */
  lemma DeadNotPushed(v: Volume, s: Shape, p: Path, part: seq<byte>)
    requires Inv(v, s) && PathOk(v, s, p) && OnDisk(v, p) && FindFolder(v.Dir(Last(p)), part) < |v.Dir(Last(p))|
    requires !Live(v.Dir(Last(p))[FindFolder(v.Dir(Last(p)), part)])
    ensures !PathOk(v, s, Push(p, v.Dir(Last(p))[FindFolder(v.Dir(Last(p)), part)]))
  {
    hide TableOf, TreeInv, HeapInv, HeaderOk, NamesOk, Clusters, ClusterNo, FindFolder, TablesOf, Walkable, Chain,
      PathOk;
    var t := v.Dir(Last(p));
    var j := FindFolder(t, part);
    var q := Push(p, t[j]);
    if PathOk(v, s, q) {
      PathEnd(v, s, p);
      PathEnd(v, s, q);
      var c := Last(q);
      ChildKnowsParent(v, s, c);
      var k := s.home[c].1;
      LiveEntryAt(v, s, Last(p), k);
      MatchedFolder(t, part);
      LiveFirst(v, s, Last(p), k, j);
    }
  }

  lemma LiveFirst(v: Volume, s: Shape, d: nat, k: nat, j: nat)
    requires Inv(v, s) && d in s.depth && d < CLUSTER_MAP_SIZE && k < |v.Dir(d)| && j < |v.Dir(d)|
    requires Live(v.Dir(d)[k]) && !Live(v.Dir(d)[j]) && v.Dir(d)[j].name == v.Dir(d)[k].name
    ensures k < j
  {
    hide TableOf, TreeInv, HeapInv, HeaderOk;
    NamesAt(v, s, d);
    SearchFindsLive(v.Dir(d), k);
  }

  /** Going down past no left-over entry keeps the stack on the tree. */
  lemma DescendKeeps(v: Volume, s: Shape, p: Path, part: seq<byte>)
    requires Inv(v, s) && PathOk(v, s, p) && ClearOf(v, s, part)
    ensures OnDisk(v, p)
    ensures Descend(v, p, part).Standing? ==> PathOk(v, s, Descend(v, p, part).path)
  {
    hide TableOf, TreeInv, HeapInv, HeaderOk, FindFolder, PathOk, Matches;
    PathEnd(v, s, p);
    assert ClearTable(v.Dir(Last(p)), part);
    MatchedFolder(v.Dir(Last(p)), part);
    DescendOnTreeIff(v, s, p, part);
  }

  lemma ChildKnowsParent(v: Volume, s: Shape, c: nat)
    requires Inv(v, s) && c in s.depth && c in s.home
    ensures c < CLUSTER_MAP_SIZE && |v.Dir(c)| == TABLE_SIZE
    ensures var (p, j) := s.home[c];
            && p in s.depth && p < CLUSTER_MAP_SIZE && 1 <= j < |v.Dir(p)| == TABLE_SIZE && s.depth[c] == s.depth[p] + 1
            && v.Dir(c)[0].name == v.Dir(p)[j].name && ClusterNo(v.Dir(p)[j]) == c && Live(v.Dir(p)[j])
            && v.Dir(p)[j].filesize == 0 && c != ROOT_CLUSTER_NUMBER
  {
    hide TableOf, TreeInv, HeapInv, HeaderOk, NamesOk, Clusters, ClusterNo;
    var ts := TablesOf(v.raw, s.depth.Keys);
    DirAt(v, s, c);
    HomeAt(ts, s, c);
    At(ts, s, c);
    DepthKeys(ts, s);
    DirAt(v, s, s.home[c].0);
    EntryAt(ts, s, s.home[c].0, s.home[c].1);
  }

  /** The stack of the first `n` directories. */
  function Upto(p: Path, n: nat): Path
    requires n <= |p.clusters| == |p.names|
  {
    Path(p.clusters[..n], p.names[..n])
  }

  /** The components that name a stack from the root. */
  function Parts(names: seq<Name>): (parts: seq<seq<byte>>)
    ensures |parts| == |names|
  {
    seq(|names|, i requires 0 <= i < |names| => names[i][..NameLength(names[i])])
  }

  lemma DescendFindsStep(v: Volume, s: Shape, p: Path, i: nat)
    requires Inv(v, s) && Readable(v, s) && PathOk(v, s, p) && i + 1 < |p.clusters|
    ensures var name := p.names[i + 1];
            && OnDisk(v, Upto(p, i + 1))
            && Descend(v, Upto(p, i + 1), name[..NameLength(name)]) == Standing(Upto(p, i + 2))
  {
    hide TableOf, TreeInv, HeapInv, HeaderOk, NamesOk, IsPadded, Pad, ClusterNo, Clusters, NameLength, FindFolder,
      TablesOf, Walkable, Chain;
    assert StepOk(v, s, p, i) && StepOk(v, s, p, i + 1);
    var d, c, name := p.clusters[i], p.clusters[i + 1], p.names[i + 1];
    ChildKnowsParent(v, s, c);
    var k := s.home[c].1;
    assert ReadableTable(v.Dir(d));
    LiveEntryAt(v, s, d, k);
    NameOfPadded(name);
    FindFolderIs(v, s, d, name[..NameLength(name)]);
    assert Upto(p, i + 2).clusters == Upto(p, i + 1).clusters + [c];
    assert Upto(p, i + 2).names == Upto(p, i + 1).names + [name];
  }

  lemma NameOfPadded(name: Name)
    requires IsPadded(name)
    ensures Pad(name[..NameLength(name)]) == name
    ensures forall i :: 0 <= i < NameLength(name) ==> name[..NameLength(name)][i] != 0
  {
  }

  /** Resolving the names on the stack from the root leads to the clusters on it. */
  lemma {:induction false} StackResolves(v: Volume, s: Shape, p: Path, n: nat)
    requires Inv(v, s) && Readable(v, s) && PathOk(v, s, p) && 0 < n <= |p.clusters|
    ensures DescendAll(v, ROOT_PATH, Parts(p.names[1..n])) == Standing(Upto(p, n))
    decreases n
  {
    hide TableOf, TreeInv, HeapInv, HeaderOk, Readable, Descend, NameLength;
    if n == 1 {
      assert StepOk(v, s, p, 0);
      RootName(v, s);
      assert Upto(p, 1) == ROOT_PATH;
    } else {
      StackResolves(v, s, p, n - 1);
      DescendFindsStep(v, s, p, n - 2);
      var part := p.names[n - 1][..NameLength(p.names[n - 1])];
      assert Parts(p.names[1..n]) == Parts(p.names[1..n - 1]) + [part];
      DescendAppend(v, ROOT_PATH, Parts(p.names[1..n - 1]), [part]);
    }
  }

  lemma RootName(v: Volume, s: Shape)
    requires Inv(v, s)
    ensures |v.Dir(ROOT_CLUSTER_NUMBER)| == TABLE_SIZE && v.Dir(ROOT_CLUSTER_NUMBER)[0].name == ROOT_NAME
  {
    hide TableOf, TreeInv, HeapInv, HeaderOk, NamesOk;
    var ts := TablesOf(v.raw, s.depth.Keys);
    DepthKeys(ts, s);
    DirAt(v, s, ROOT_CLUSTER_NUMBER);
    At(ts, s, ROOT_CLUSTER_NUMBER);
  }

  /** Asking the driver for a directory by its parent and its name gives that directory. */
  lemma AskedIsGiven(v: Volume, s: Shape, p: Path, q: Request)
    requires Inv(v, s) && PathOk(v, s, p) && q.bufferSize == CLUSTER_SIZE && q.name == p.names[|p.names| - 1]
    requires q.parent == p.clusters[if |p.clusters| == 1 then 0 else |p.clusters| - 2]
    ensures ReadDirectoryReady(v, q) && FolderRead(v, q) == Found(0, [Last(p)])
  {
    hide TableOf, TreeInv, HeapInv, HeaderOk, NamesOk, Clusters, ClusterNo, FirstNamed, Walkable, Chain, TablesOf;
    var n := |p.clusters| - 1;
    assert StepOk(v, s, p, n);
    if n == 0 {
      RootName(v, s);
      SelfCluster(v, s, ROOT_CLUSTER_NUMBER);
      NodeAt(v, s, ROOT_CLUSTER_NUMBER, 0);
    } else {
      assert StepOk(v, s, p, n - 1);
      ChildKnowsParent(v, s, p.clusters[n]);
      LiveEntryAt(v, s, p.clusters[n - 1], s.home[p.clusters[n]].1);
    }
  }
}
