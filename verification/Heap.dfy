/** The FAT as a heap of chains: every used cell belongs to exactly one chain, and
    chains run through strictly larger cells to END_OF_FILE. */
module Heap {
  import opened Layout
  import opened Volume

  /** The chain that starts at each file or folder, and for each used cell the start of
      the chain it is on. */
  type Chains = map<nat, seq<nat>>
  type Owners = map<nat, nat>

  ghost predicate IsChain(fat: seq<uint32>, head: nat, cells: seq<nat>)
    requires |fat| == CLUSTER_MAP_SIZE
  {
    && 0 < |cells| && cells[0] == head
    && forall k {:trigger LinkOk(fat, cells, k)} :: 0 <= k < |cells| ==> LinkOk(fat, cells, k)
  }

  ghost predicate LinkOk(fat: seq<uint32>, cells: seq<nat>, k: nat)
    requires |fat| == CLUSTER_MAP_SIZE && k < |cells|
  {
    && 2 <= cells[k] < CLUSTER_MAP_SIZE
    && if k + 1 < |cells| then fat[cells[k]] == cells[k + 1] > cells[k] else fat[cells[k]] == END_OF_FILE
  }

  ghost predicate Owned(owner: Owners, head: nat, cells: seq<nat>) {
    forall k :: 0 <= k < |cells| ==> cells[k] in owner && owner[cells[k]] == head
  }

  ghost predicate HeapInv(fat: seq<uint32>, chains: Chains, owner: Owners) {
    && |fat| == CLUSTER_MAP_SIZE
    && (forall h {:trigger IsChain(fat, h, chains[h])} {:trigger Owned(owner, h, chains[h])} ::
          h in chains ==> IsChain(fat, h, chains[h]) && Owned(owner, h, chains[h]))
    && (forall c {:trigger OwnerOk(chains, owner, c)} :: c in owner ==> OwnerOk(chains, owner, c))
    && (forall c :: 2 <= c < CLUSTER_MAP_SIZE ==> (fat[c] != EMPTY_ENTRY <==> c in owner))
  }

  ghost predicate OwnerOk(chains: Chains, owner: Owners, c: nat)
    requires c in owner
  {
    2 <= c < CLUSTER_MAP_SIZE && owner[c] in chains && c in chains[owner[c]]
  }

  /** The cells from `lo` up to `hi`. */
  function CellRange(lo: nat, hi: nat): (r: set<nat>)
    requires lo <= hi
    ensures |r| == hi - lo && forall x :: x in r <==> lo <= x < hi
    decreases hi - lo
  {
    if lo == hi then {} else {lo} + CellRange(lo + 1, hi)
  }

  /** What the invariant says of one chain. */
  lemma ChainAt(fat: seq<uint32>, chains: Chains, owner: Owners, h: nat)
    requires HeapInv(fat, chains, owner) && h in chains
    ensures |fat| == CLUSTER_MAP_SIZE && IsChain(fat, h, chains[h]) && Owned(owner, h, chains[h])
    ensures chains[h] != [] && chains[h][0] == h
  {
    assert IsChain(fat, h, chains[h]);
  }

  /** The owner of a used cell, and that its chain has the cell. */
  lemma OwnerAt(fat: seq<uint32>, chains: Chains, owner: Owners, c: nat)
    requires HeapInv(fat, chains, owner) && 2 <= c < CLUSTER_MAP_SIZE && fat[c] != EMPTY_ENTRY
    ensures c in owner && owner[c] in chains && c in chains[owner[c]]
    ensures IsChain(fat, owner[c], chains[owner[c]]) && Owned(owner, owner[c], chains[owner[c]])
  {
    assert OwnerOk(chains, owner, c);
    ChainAt(fat, chains, owner, owner[c]);
  }

  /** Two chains never share a cell. */
  lemma ChainsDisjoint(fat: seq<uint32>, chains: Chains, owner: Owners, g: nat, h: nat)
    requires HeapInv(fat, chains, owner) && g in chains && h in chains && g != h
    ensures forall c :: c in chains[g] ==> c !in chains[h]
  {
    ChainAt(fat, chains, owner, g);
    ChainAt(fat, chains, owner, h);
    assert forall c :: c in chains[g] ==> owner[c] == g;
  }

  /** Every cell that is neither free nor the end of a chain points at a strictly larger one. */
  lemma CellsPointUp(fat: seq<uint32>, chains: Chains, owner: Owners, c: nat)
    requires HeapInv(fat, chains, owner) && 2 <= c < CLUSTER_MAP_SIZE
    ensures fat[c] == EMPTY_ENTRY || fat[c] == END_OF_FILE || c < fat[c] < CLUSTER_MAP_SIZE
  {
    if fat[c] != EMPTY_ENTRY {
      OwnerAt(fat, chains, owner, c);
      var cells := chains[owner[c]];
      var k :| 0 <= k < |cells| && cells[k] == c;
      assert LinkOk(fat, cells, k);
      assert k + 1 < |cells| ==> LinkOk(fat, cells, k + 1);
    }
  }

  lemma HeadInUse(fat: seq<uint32>, chains: Chains, owner: Owners, h: nat)
    requires HeapInv(fat, chains, owner) && h in chains
    ensures 2 <= h < CLUSTER_MAP_SIZE && fat[h] != EMPTY_ENTRY && h in owner && owner[h] == h
  {
    ChainAt(fat, chains, owner, h);
    assert LinkOk(fat, chains[h], 0);
    assert |chains[h]| > 1 ==> LinkOk(fat, chains[h], 1);
    assert chains[h][0] in owner;
  }

  /** The walk of `read` and `delete` is the chain, for each chain. */
  lemma {:induction false} WalkIsChain(fat: seq<uint32>, head: nat, cells: seq<nat>)
    requires |fat| == CLUSTER_MAP_SIZE && IsChain(fat, head, cells)
    ensures Walkable(fat, head) && Chain(fat, head) == cells
    decreases |cells|
  {
    assert LinkOk(fat, cells, 0);
    if |cells| > 1 {
      assert LinkOk(fat, cells, 1);
      var rest := cells[1..];
      forall k | 0 <= k < |rest| ensures LinkOk(fat, rest, k) {
        assert LinkOk(fat, cells, k + 1);
      }
      WalkIsChain(fat, rest[0], rest);
      assert cells == [head] + rest;
    }
  }

  // -- Adding a chain --

  ghost predicate FreeCellsOf(fat: seq<uint32>, cells: seq<nat>) {
    && |fat| == CLUSTER_MAP_SIZE && Ascending(cells)
    && forall k :: 0 <= k < |cells| ==> 2 <= cells[k] < CLUSTER_MAP_SIZE && fat[cells[k]] == EMPTY_ENTRY
  }

  lemma {:induction false} ThreadCells(fat: seq<uint32>, cells: seq<nat>)
    requires |fat| == CLUSTER_MAP_SIZE && Ascending(cells)
    requires forall k :: 0 <= k < |cells| ==> cells[k] < CLUSTER_MAP_SIZE
    ensures forall c :: 0 <= c < |fat| && c !in cells ==> Thread(fat, cells)[c] == fat[c]
    ensures forall k :: 0 <= k < |cells| - 1 ==> Thread(fat, cells)[cells[k]] == cells[k + 1]
    decreases |cells|
  {
    var n := |cells|;
    if n > 1 {
      var prior := cells[..n - 1];
      ThreadCells(fat, prior);
      var t := Thread(fat, prior);
      assert Thread(fat, cells) == t[cells[n - 2] := cells[n - 1]];
      forall k | 0 <= k < n - 1 ensures t[cells[n - 2] := cells[n - 1]][cells[k]] == cells[k + 1] {
        if k < n - 2 {
          assert prior[k] == cells[k] < cells[n - 2] && prior[k + 1] == cells[k + 1];
        }
      }
      assert cells[n - 2] in cells;
    }
  }

  lemma LinkMakesChain(fat: seq<uint32>, cells: seq<nat>)
    requires FreeCellsOf(fat, cells) && 0 < |cells|
    ensures IsChain(Link(fat, cells), cells[0], cells)
    ensures forall c :: 0 <= c < |fat| && c !in cells ==> Link(fat, cells)[c] == fat[c]
  {
    hide Thread;
    ThreadCells(fat, cells);
    forall k | 0 <= k < |cells| ensures LinkOk(Link(fat, cells), cells, k) {
      if k + 1 < |cells| {
        assert cells[k] < cells[k + 1] && cells[k] < cells[|cells| - 1];
      }
    }
  }

  function AddedOwners(owner: Owners, cells: seq<nat>): Owners
    requires 0 < |cells|
  {
    owner + map c | c in cells :: cells[0]
  }

  lemma FreeNotOwned(fat: seq<uint32>, chains: Chains, owner: Owners, cells: seq<nat>)
    requires HeapInv(fat, chains, owner) && FreeCellsOf(fat, cells)
    ensures forall c :: c in cells ==> c !in owner && 2 <= c < CLUSTER_MAP_SIZE
  {
    forall c | c in cells ensures c !in owner && 2 <= c < CLUSTER_MAP_SIZE {
      var k :| 0 <= k < |cells| && cells[k] == c;
    }
  }

  /** A chain keeps its links in a map that agrees on its cells. */
  lemma ChainKept(fat: seq<uint32>, fat': seq<uint32>, h: nat, cells: seq<nat>)
    requires |fat| == |fat'| == CLUSTER_MAP_SIZE && IsChain(fat, h, cells)
    requires forall k :: 0 <= k < |cells| && cells[k] < CLUSTER_MAP_SIZE ==> fat'[cells[k]] == fat[cells[k]]
    ensures IsChain(fat', h, cells)
  {
    forall k | 0 <= k < |cells| ensures LinkOk(fat', cells, k) {
      assert LinkOk(fat, cells, k);
    }
  }

  lemma ChainInUse(fat: seq<uint32>, cells: seq<nat>, h: nat, c: nat)
    requires |fat| == CLUSTER_MAP_SIZE && IsChain(fat, h, cells) && c in cells
    ensures 2 <= c < CLUSTER_MAP_SIZE && fat[c] != EMPTY_ENTRY
  {
    var k :| 0 <= k < |cells| && cells[k] == c;
    assert LinkOk(fat, cells, k);
    assert k + 1 < |cells| ==> LinkOk(fat, cells, k + 1);
  }

  lemma AddChain(fat: seq<uint32>, chains: Chains, owner: Owners, cells: seq<nat>)
    requires HeapInv(fat, chains, owner) && FreeCellsOf(fat, cells) && 0 < |cells|
    ensures cells[0] !in chains
    ensures HeapInv(Link(fat, cells), chains[cells[0] := cells], AddedOwners(owner, cells))
  {
    hide Link, IsChain;
    var fat', chains', owner' := Link(fat, cells), chains[cells[0] := cells], AddedOwners(owner, cells);
    LinkMakesChain(fat, cells);
    FreeNotOwned(fat, chains, owner, cells);
    if cells[0] in chains {
      HeadInUse(fat, chains, owner, cells[0]);
    }
    forall h | h in chains' ensures IsChain(fat', h, chains'[h]) && Owned(owner', h, chains'[h]) {
      if h != cells[0] {
        assert Owned(owner, h, chains[h]);
        ChainKept(fat, fat', h, chains[h]);
      }
    }
    forall c | c in owner' ensures OwnerOk(chains', owner', c) {
      if c !in cells {
        assert OwnerOk(chains, owner, c);
      }
    }
    forall c | c in cells ensures fat'[c] != EMPTY_ENTRY { ChainInUse(fat', cells, cells[0], c); }
  }

  // -- Dropping a chain --

  function DroppedOwners(owner: Owners, cells: seq<nat>): Owners {
    map c | c in owner && c !in cells :: owner[c]
  }

  lemma DropChain(fat: seq<uint32>, chains: Chains, owner: Owners, h: nat)
    requires HeapInv(fat, chains, owner) && h in chains
    requires forall k :: 0 <= k < |chains[h]| ==> chains[h][k] < |fat|
    ensures HeapInv(Release(fat, chains[h]), chains - {h}, DroppedOwners(owner, chains[h]))
  {
    var cells := chains[h];
    var fat', chains', owner' := Release(fat, cells), chains - {h}, DroppedOwners(owner, cells);
    forall g | g in chains' ensures IsChain(fat', g, chains'[g]) && Owned(owner', g, chains'[g]) {
      ChainsDisjoint(fat, chains, owner, g, h);
      assert Owned(owner, g, chains[g]);
      forall k | 0 <= k < |chains[g]| ensures LinkOk(fat', chains[g], k) {
        assert LinkOk(fat, chains[g], k) && chains[g][k] in chains[g];
      }
    }
    forall c | c in owner' ensures OwnerOk(chains', owner', c) {
      assert OwnerOk(chains, owner, c);
    }
  }

  /** Linking free cells and releasing them again gives back every cell of the map. */
  lemma ReleaseUndoesLink(fat: seq<uint32>, cells: seq<nat>)
    requires FreeCellsOf(fat, cells) && 0 < |cells|
    ensures Release(Link(fat, cells), cells) == fat
  {
    hide Link;
    LinkMakesChain(fat, cells);
    forall c | 0 <= c < |fat| ensures Release(Link(fat, cells), cells)[c] == fat[c] {
      if c in cells {
        var k :| 0 <= k < |cells| && cells[k] == c;
      }
    }
  }
}
