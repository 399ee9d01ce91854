/** The directory tables as a tree rooted at cluster 2. `home` says, for each file and
    folder but the root, the one live entry that refers to it; `depth` says how far a
    directory is below the root. */
module Tree {
  import opened Layout
  import opened Volume
  import opened Heap

  type Tables = map<nat, Table>
  type Slot = (nat, nat)

  datatype Shape = Shape(chains: Chains, owner: Owners, home: map<nat, Slot>, depth: map<nat, nat>)

  ghost predicate TreeInv(ts: Tables, s: Shape) {
    && ROOT_CLUSTER_NUMBER in ts
    && s.depth.Keys == ts.Keys
    && (forall d :: d in ts ==> d in s.chains && |s.chains[d]| == 1)
    && (forall c :: c in s.chains ==> c == ROOT_CLUSTER_NUMBER || c in s.home)
    && (forall c {:trigger HomeOk(ts, s, c)} :: c in s.home ==> HomeOk(ts, s, c))
    && (forall d {:trigger TableOk(ts, s, d)} :: d in ts ==> TableOk(ts, s, d))
  }

  /** The entry recorded as `c`'s home is live and refers to `c`. */
  ghost predicate HomeOk(ts: Tables, s: Shape, c: nat)
    requires c in s.home
  {
    var (d, j) := s.home[c];
    && c != ROOT_CLUSTER_NUMBER && c in s.chains
    && d in ts && 1 <= j < |ts[d]|
    && Live(ts[d][j]) && ClusterNo(ts[d][j]) == c
  }

  ghost predicate TableOk(ts: Tables, s: Shape, d: nat)
    requires d in ts && s.depth.Keys == ts.Keys
  {
    && |ts[d]| == TABLE_SIZE
    && SelfOk(ts, s, d)
    && NamesOk(ts[d])
    && forall j {:trigger EntryOk(ts, s, d, j)} :: 1 <= j < |ts[d]| && Live(ts[d][j]) ==> EntryOk(ts, s, d, j)
  }

  /** Entry 0 carries the directory's own name and its parent's cluster. */
  ghost predicate SelfOk(ts: Tables, s: Shape, d: nat)
    requires d in ts && |ts[d]| == TABLE_SIZE && s.depth.Keys == ts.Keys
  {
    var e := ts[d][0];
    && Live(e) && e.filesize == 0
    && if d == ROOT_CLUSTER_NUMBER then e.name == ROOT_NAME && ClusterNo(e) == d && s.depth[d] == 0
       else && d in s.home
            && var (p, j) := s.home[d];
            && ClusterNo(e) == p && p in ts && j < |ts[p]|
            && s.depth[d] == s.depth[p] + 1
            && e.name == ts[p][j].name
  }

  /** Live names are non-zero, and a search by name that ignores liveness stops at them. */
  ghost predicate NamesOk(t: Table) {
    forall j :: 0 <= j < |t| && Live(t[j]) ==> NameOk(t, j)
  }

  ghost predicate NameOk(t: Table, j: nat)
    requires j < |t|
  {
    t[j].name != NO_NAME && forall i :: 0 <= i < j ==> t[i].name != t[j].name
  }

  ghost predicate EntryOk(ts: Tables, s: Shape, d: nat, j: nat)
    requires d in ts && j < |ts[d]|
  {
    var e := ts[d][j];
    var c := ClusterNo(e);
    && c in s.home && s.home[c] == (d, j) && c in s.chains
    && (e.filesize == 0 <==> c in ts)
    && (e.attribute == ATR_DIRECTORY <==> e.filesize == 0)
    && (e.filesize > 0 ==> |s.chains[c]| == Clusters(e.filesize))
  }

  // -- Searching by name --

  lemma SearchFindsLive(t: Table, j: nat)
    requires NamesOk(t) && j < |t| && Live(t[j])
    ensures FirstNamed(t, t[j].name) == j
  {
    assert NameOk(t, j);
    var i := FirstNamed(t, t[j].name);
    assert i <= j;
  }

  // -- Reading the invariant one place at a time --

  lemma At(ts: Tables, s: Shape, d: nat)
    requires TreeInv(ts, s) && d in ts
    ensures s.depth.Keys == ts.Keys && d in s.chains && |s.chains[d]| == 1 && |ts[d]| == TABLE_SIZE
    ensures SelfOk(ts, s, d) && NamesOk(ts[d])
    ensures d != ROOT_CLUSTER_NUMBER ==> d in s.home
  {
    assert TableOk(ts, s, d);
  }

  lemma EntryAt(ts: Tables, s: Shape, d: nat, j: nat)
    requires TreeInv(ts, s) && d in ts && 1 <= j < |ts[d]| && Live(ts[d][j])
    ensures EntryOk(ts, s, d, j)
  {
    assert TableOk(ts, s, d);
  }

  lemma HomeAt(ts: Tables, s: Shape, c: nat)
    requires TreeInv(ts, s) && c in s.home
    ensures HomeOk(ts, s, c) && |ts[s.home[c].0]| == TABLE_SIZE
  {
    assert HomeOk(ts, s, c) && TableOk(ts, s, s.home[c].0);
  }

  // -- One slot rewritten --

  /** Slot `j` of directory `d` now holds `e`. The slot was and is about cluster `c` alone,
      which comes or goes with it; nothing else changes. */
  ghost predicate Edit(ts: Tables, s: Shape, ts': Tables, s': Shape, d: nat, j: nat, e: Entry, c: nat) {
    && d in ts && d != c && 1 <= j < |ts[d]| && c != ROOT_CLUSTER_NUMBER
    && s'.depth.Keys == ts'.Keys
    && (forall y :: y in ts && y != c ==> y in ts' && ts'[y] == if y == d then ts[d][j := e] else ts[y])
    && (forall y :: y in ts' && y != c ==> y in ts)
    && (forall y :: y in s.home && y != c ==> y in s'.home && s'.home[y] == s.home[y])
    && (forall y :: y in s.chains && y != c ==> y in s'.chains && s'.chains[y] == s.chains[y])
    && (forall y :: y in s.depth && y != c ==> y in s'.depth && s'.depth[y] == s.depth[y])
    && (Live(ts[d][j]) ==> ClusterNo(ts[d][j]) == c)
    && (c in s.home ==> s.home[c] == (d, j))
    && (c in ts ==> !HasEntries(ts[c]))
    && NamesOk(ts[d][j := e])
    && (Live(e) ==> d in ts' && j < |ts'[d]| && EntryOk(ts', s', d, j))
  }

  lemma EditedHome(ts: Tables, s: Shape, ts': Tables, s': Shape, d: nat, j: nat, e: Entry, c: nat, y: nat)
    requires TreeInv(ts, s) && Edit(ts, s, ts', s', d, j, e, c) && y in s.home && y != c
    ensures y in s'.home && HomeOk(ts', s', y)
  {
    hide TreeInv, ClusterNo, NamesOk, EntryOk;
    HomeAt(ts, s, y);
  }

  lemma EditedEntry(ts: Tables, s: Shape, ts': Tables, s': Shape, d: nat, j: nat, e: Entry, c: nat, x: nat, k: nat)
    requires TreeInv(ts, s) && Edit(ts, s, ts', s', d, j, e, c)
    requires x in ts && x != c && 1 <= k < |ts[x]| && Live(ts[x][k]) && (x, k) != (d, j)
    ensures x in ts' && k < |ts'[x]| && EntryOk(ts', s', x, k)
  {
    hide TreeInv, ClusterNo, NamesOk, Clusters;
    EntryAt(ts, s, x, k);
  }

  lemma EditedSelf(ts: Tables, s: Shape, ts': Tables, s': Shape, d: nat, j: nat, e: Entry, c: nat, x: nat)
    requires TreeInv(ts, s) && Edit(ts, s, ts', s', d, j, e, c) && x in ts && x != c
    ensures x in ts' && |ts'[x]| == TABLE_SIZE && NamesOk(ts'[x]) && SelfOk(ts', s', x)
  {
    hide TreeInv, ClusterNo, NamesOk, EntryOk;
    At(ts, s, x);
    if x != ROOT_CLUSTER_NUMBER { HomeAt(ts, s, x); }
  }

  /** The invariant survives the edit, when the object that came or stayed is in order. */
  lemma EditKeepsTree(ts: Tables, s: Shape, ts': Tables, s': Shape, d: nat, j: nat, e: Entry, c: nat)
    requires TreeInv(ts, s) && Edit(ts, s, ts', s', d, j, e, c)
    requires forall y :: y in s'.home && y != c ==> y in s.home
    requires forall y :: y in s'.chains && y != c ==> y in s.chains
    requires c in s'.home <==> c in s'.chains
    requires c in s'.home ==> HomeOk(ts', s', c)
    requires c in ts' ==> c in s'.chains && |s'.chains[c]| == 1 && TableOk(ts', s', c)
    ensures TreeInv(ts', s')
  {
    hide TreeInv, EntryOk, SelfOk, NamesOk, TableOk, HomeOk, HasEntries, ClusterNo;
    forall y | y in s'.home ensures HomeOk(ts', s', y) {
      if y != c { EditedHome(ts, s, ts', s', d, j, e, c, y); }
    }
    forall x | x in ts' ensures TableOk(ts', s', x) && x in s'.chains && |s'.chains[x]| == 1 {
      if x != c {
        At(ts, s, x);
        EditedTable(ts, s, ts', s', d, j, e, c, x);
      }
    }
    RootAndHomes(ts, s);
    TreeFrom(ts', s');
  }

  lemma RootAndHomes(ts: Tables, s: Shape)
    requires TreeInv(ts, s)
    ensures ROOT_CLUSTER_NUMBER in ts
    ensures forall c :: c in s.chains ==> c == ROOT_CLUSTER_NUMBER || c in s.home
  {
  }

  lemma TreeFrom(ts: Tables, s: Shape)
    requires ROOT_CLUSTER_NUMBER in ts && s.depth.Keys == ts.Keys
    requires forall d :: d in ts ==> TableOk(ts, s, d) && d in s.chains && |s.chains[d]| == 1
    requires forall c :: c in s.chains ==> c == ROOT_CLUSTER_NUMBER || c in s.home
    requires forall c :: c in s.home ==> HomeOk(ts, s, c)
    ensures TreeInv(ts, s)
  {
  }

  lemma EditedTable(ts: Tables, s: Shape, ts': Tables, s': Shape, d: nat, j: nat, e: Entry, c: nat, x: nat)
    requires TreeInv(ts, s) && Edit(ts, s, ts', s', d, j, e, c) && x in ts && x != c
    ensures x in ts' && s'.depth.Keys == ts'.Keys && TableOk(ts', s', x)
  {
    hide TreeInv, ClusterNo, NamesOk, EntryOk, SelfOk;
    EditedSelf(ts, s, ts', s', d, j, e, c, x);
    forall k | 1 <= k < |ts'[x]| && Live(ts'[x][k]) ensures EntryOk(ts', s', x, k) {
      if (x, k) != (d, j) { EditedEntry(ts, s, ts', s', d, j, e, c, x, k); }
    }
  }

  // -- Adding an entry --

  lemma NamesAfterAdd(t: Table, e: Entry)
    requires NamesOk(t) && FirstDead(t) < |t| && e.name != NO_NAME
    requires forall i :: 0 <= i < |t| && Live(t[i]) ==> t[i].name != e.name
    ensures NamesOk(t[FirstDead(t) := e])
  {
    var j, t' := FirstDead(t), t[FirstDead(t) := e];
    forall m | 0 <= m < |t'| && Live(t'[m]) ensures NameOk(t', m) {
      if m != j {
        assert NameOk(t, m);
      }
    }
  }

  /** `e` may be added to directory `d`: there is a slot, the name is new, and its cluster
      is no file's or folder's. */
  ghost predicate Addable(ts: Tables, s: Shape, d: nat, e: Entry) {
    && d in ts && FirstDead(ts[d]) < |ts[d]|
    && Live(e) && e.name != NO_NAME
    && (forall i :: 0 <= i < |ts[d]| && Live(ts[d][i]) ==> ts[d][i].name != e.name)
    && ClusterNo(e) !in s.chains && ClusterNo(e) != ROOT_CLUSTER_NUMBER
  }

  lemma AddableFacts(ts: Tables, s: Shape, d: nat, e: Entry)
    requires TreeInv(ts, s) && Addable(ts, s, d, e)
    ensures ClusterNo(e) !in ts && ClusterNo(e) !in s.home && d != ClusterNo(e) && |ts[d]| == TABLE_SIZE
    ensures 1 <= FirstDead(ts[d]) < |ts[d]| && NamesOk(ts[d][FirstDead(ts[d]) := e])
    ensures d in s.depth
  {
    hide ClusterNo;
    assert TableOk(ts, s, d) && SelfOk(ts, s, d);
    if ClusterNo(e) in s.home { HomeAt(ts, s, ClusterNo(e)); }
    NamesAfterAdd(ts[d], e);
  }

  function FileShape(s: Shape, owner: Owners, c: nat, cells: seq<nat>, slot: Slot): Shape {
    Shape(s.chains[c := cells], owner, s.home[c := slot], s.depth)
  }

  lemma AddFile(ts: Tables, s: Shape, owner: Owners, d: nat, e: Entry, cells: seq<nat>)
    requires TreeInv(ts, s) && Addable(ts, s, d, e)
    requires e.filesize > 0 && e.attribute != ATR_DIRECTORY && |cells| == Clusters(e.filesize)
    ensures TreeInv(ts[d := ts[d][FirstDead(ts[d]) := e]],
                    FileShape(s, owner, ClusterNo(e), cells, (d, FirstDead(ts[d]))))
  {
    hide TreeInv, ClusterNo, FirstDead, NamesOk, Clusters;
    AddableFacts(ts, s, d, e);
    At(ts, s, d);
    var c, j := ClusterNo(e), FirstDead(ts[d]);
    EditKeepsTree(ts, s, ts[d := ts[d][j := e]], FileShape(s, owner, c, cells, (d, j)), d, j, e, c);
  }

  function FolderShape(s: Shape, owner: Owners, c: nat, slot: Slot): Shape
    requires slot.0 in s.depth
  {
    Shape(s.chains[c := [c]], owner, s.home[c := slot], s.depth[c := s.depth[slot.0] + 1])
  }

  /** The table of a folder just made: itself and no entries. */
  ghost predicate FreshTable(t: Table, name: Name, parent: nat) {
    && |t| == TABLE_SIZE && !HasEntries(t)
    && Live(t[0]) && t[0].filesize == 0 && t[0].name == name && ClusterNo(t[0]) == parent
  }

  lemma AddFolder(ts: Tables, s: Shape, owner: Owners, d: nat, e: Entry, table: Table)
    requires Addable(ts, s, d, e) && d in s.depth
    requires e.filesize == 0 && e.attribute == ATR_DIRECTORY && FreshTable(table, e.name, d)
    requires TreeInv(ts, s)
    ensures TreeInv(ts[d := ts[d][FirstDead(ts[d]) := e]][ClusterNo(e) := table],
                    FolderShape(s, owner, ClusterNo(e), (d, FirstDead(ts[d]))))
  {
    hide TreeInv, ClusterNo, FirstDead, NamesOk, Clusters;
    AddableFacts(ts, s, d, e);
    At(ts, s, d);
    var c, j := ClusterNo(e), FirstDead(ts[d]);
    var ts', s' := ts[d := ts[d][j := e]][c := table], FolderShape(s, owner, c, (d, j));
    FreshNames(table, e.name, d);
    assert TableOk(ts', s', c);
    EditKeepsTree(ts, s, ts', s', d, j, e, c);
  }

  lemma FreshNames(t: Table, name: Name, parent: nat)
    requires FreshTable(t, name, parent) && name != NO_NAME
    ensures NamesOk(t)
  {
    forall m | 0 <= m < |t| && Live(t[m]) ensures NameOk(t, m) {}
  }

  // -- Dropping an entry --

  lemma NamesAfterDrop(t: Table, i: nat, e: Entry)
    requires NamesOk(t) && i < |t| && Live(t[i]) && !Live(e)
    requires e.name == NO_NAME || e.name == t[i].name
    ensures NamesOk(t[i := e])
  {
    var t' := t[i := e];
    forall m | 0 <= m < |t'| && Live(t'[m]) ensures NameOk(t', m) {
      assert NameOk(t, m);
      assert i < m ==> t[i].name != t[m].name;
    }
  }

  function DroppedShape(s: Shape, owner: Owners, c: nat): Shape {
    Shape(s.chains - {c}, owner, s.home - {c}, s.depth - {c})
  }

  /** Slot `i` of `d` given up, with the file or the empty folder it referred to. No
      directory loses its parent. */
  lemma DropEntry(ts: Tables, s: Shape, owner: Owners, d: nat, i: nat, e: Entry)
    requires TreeInv(ts, s) && d in ts && 1 <= i < |ts[d]| && Live(ts[d][i]) && !Live(e)
    requires e.name == NO_NAME || e.name == ts[d][i].name
    requires ClusterNo(ts[d][i]) in ts ==> !HasEntries(ts[ClusterNo(ts[d][i])])
    ensures ClusterNo(ts[d][i]) != d
    ensures TreeInv((ts - {ClusterNo(ts[d][i])})[d := ts[d][i := e]], DroppedShape(s, owner, ClusterNo(ts[d][i])))
  {
    hide TreeInv, ClusterNo, NamesOk, Clusters;
    var c := ClusterNo(ts[d][i]);
    At(ts, s, d);
    EntryAt(ts, s, d, i);
    HomeAt(ts, s, c);
    NamesAfterDrop(ts[d], i, e);
    var ts', s' := (ts - {c})[d := ts[d][i := e]], DroppedShape(s, owner, c);
    assert HasEntries(ts[d]);
    EditKeepsTree(ts, s, ts', s', d, i, e, c);
  }

  // -- What the invariant says about the tree --

  /** The directory `n` steps up from `d` along entry 0. */
  ghost function Ancestor(ts: Tables, d: nat, n: nat): nat
    decreases n
  {
    if n == 0 || d !in ts || ts[d] == [] then d else Ancestor(ts, ClusterNo(ts[d][0]), n - 1)
  }

  /** Following entry 0 stays among the live directories and reaches the root in exactly
      `depth` steps, not before; cluster numbers need not go down on the way. */
  lemma {:induction false} ParentsReachRoot(ts: Tables, s: Shape, d: nat)
    requires TreeInv(ts, s) && d in ts
    ensures Ancestor(ts, d, s.depth[d]) == ROOT_CLUSTER_NUMBER
    ensures forall n :: 0 <= n < s.depth[d] ==> Ancestor(ts, d, n) in ts && Ancestor(ts, d, n) != ROOT_CLUSTER_NUMBER
    decreases s.depth[d]
  {
    hide TreeInv, NamesOk, ClusterNo;
    At(ts, s, d);
    if d != ROOT_CLUSTER_NUMBER {
      var p := ClusterNo(ts[d][0]);
      ParentsReachRoot(ts, s, p);
      forall n | 0 <= n < s.depth[d] ensures Ancestor(ts, d, n) in ts && Ancestor(ts, d, n) != ROOT_CLUSTER_NUMBER {
        if n > 0 { assert Ancestor(ts, d, n) == Ancestor(ts, p, n - 1); }
      }
    }
  }
}
