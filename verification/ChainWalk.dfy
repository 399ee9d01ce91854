/** The two loops that follow a chain to its end: `delete` frees as it goes, `read`
    copies as it goes. */
module ChainWalk {
  import opened Layout
  import opened Volume

  /** `freed` are the cells of the chain before `c`; they are free in `fat` and clear in `raw`. */
  ghost predicate Freeing(before: Volume, head: nat, c: nat, freed: seq<nat>, now: Volume) {
    && before.Shaped() && Walkable(before.fat, head) && Walkable(before.fat, c)
    && Chain(before.fat, head) == freed + Chain(before.fat, c)
    && (forall k :: 0 <= k < |freed| ==> freed[k] < c)
    && now == Volume(Release(before.fat, freed), Wipe(before.raw, freed))
  }

  lemma FreeStart(v: Volume, head: nat)
    requires v.Shaped() && Walkable(v.fat, head)
    ensures Freeing(v, head, head, [], v)
  {
    assert [] + Chain(v.fat, head) == Chain(v.fat, head);
    assert Release(v.fat, []) == v.fat;
    assert Wipe(v.raw, []) == v.raw;
  }

  /** One turn of the deleting walk at cell `c`: the cell is freed, its cluster cleared. */
  function FreeCell(v: Volume, c: nat): (r: Volume)
    requires v.Shaped() && c < CLUSTER_MAP_SIZE
    ensures r.Shaped()
  {
    Volume(v.fat[c := EMPTY_ENTRY], v.raw[c := Zeros()])
  }

  lemma FreeStep(before: Volume, head: nat, c: nat, freed: seq<nat>, now: Volume)
    requires Freeing(before, head, c, freed, now)
    ensures Walkable(before.fat, head) && c < CLUSTER_MAP_SIZE && now.Shaped()
    ensures var next, after := now.fat[c], FreeCell(now, c);
            if next == END_OF_FILE then
              after == Volume(Release(before.fat, Chain(before.fat, head)), Wipe(before.raw, Chain(before.fat, head)))
            else
              c < next < CLUSTER_MAP_SIZE && Freeing(before, head, next, freed + [c], after)
  {
    hide Chain, Walkable, Release, Wipe;
    WalkableStep(before.fat, c);
    ReleaseStep(before.fat, freed, c);
    WipeStep(before.raw, freed, c);
    var next := now.fat[c];
    if next != END_OF_FILE {
      assert freed + ([c] + Chain(before.fat, next)) == (freed + [c]) + Chain(before.fat, next);
    }
  }

  lemma ReleaseStep(fat: seq<uint32>, cells: seq<nat>, c: nat)
    requires (forall k :: 0 <= k < |cells| ==> cells[k] < c) && c < |fat|
    ensures Release(fat, cells)[c] == fat[c]
    ensures Release(fat, cells + [c]) == Release(fat, cells)[c := EMPTY_ENTRY]
  {
  }

  lemma WipeStep(raw: seq<seq<byte>>, cells: seq<nat>, c: nat)
    requires (forall k :: 0 <= k < |cells| ==> cells[k] < c) && c < |raw|
    ensures Wipe(raw, cells + [c]) == Wipe(raw, cells)[c := Zeros()]
  {
  }

  lemma WalkableStep(fat: seq<uint32>, c: nat)
    requires Walkable(fat, c)
    ensures c < |fat|
    ensures fat[c] == END_OF_FILE ==> Chain(fat, c) == [c]
    ensures fat[c] != END_OF_FILE ==>
              c < fat[c] < |fat| && Walkable(fat, fat[c]) && Chain(fat, c) == [c] + Chain(fat, fat[c])
  {
  }

  /** The first `n` clusters of the chain are in the buffer. */
  ghost predicate Reading(v: Volume, head: nat, c: nat, n: nat, before: seq<byte>, now: seq<byte>) {
    && v.Shaped() && Walkable(v.fat, head) && Walkable(v.fat, c)
    && n < |Chain(v.fat, head)| && Chain(v.fat, head)[n..] == Chain(v.fat, c)
    && CLUSTER_SIZE * n <= |before|
    && now == Content(v.raw, Chain(v.fat, head)[..n]) + before[CLUSTER_SIZE * n..]
  }

  lemma ReadStart(v: Volume, head: nat, before: seq<byte>)
    requires v.Shaped() && Walkable(v.fat, head)
    ensures Reading(v, head, head, 0, before, before)
  {
    assert before[0..] == before;
    assert Chain(v.fat, head)[0..] == Chain(v.fat, head);
  }

  lemma {:induction false} ContentLength(raw: seq<seq<byte>>, cells: seq<nat>)
    requires forall k :: 0 <= k < |cells| ==> cells[k] < |raw|
    requires SizedClusters(raw)
    ensures |Content(raw, cells)| == CLUSTER_SIZE * |cells|
  {
    if |cells| > 0 {
      ContentLength(raw, cells[..|cells| - 1]);
    }
  }

  lemma ReadStop(v: Volume, head: nat, c: nat, n: nat, before: seq<byte>, now: seq<byte>)
    requires Reading(v, head, c, n, before, now)
    ensures n < |Chain(v.fat, head)| && CLUSTER_SIZE * n <= |before|
    ensures now == Content(v.raw, Chain(v.fat, head)[..n]) + before[CLUSTER_SIZE * n..]
  {
  }

  lemma ReadStep(v: Volume, head: nat, c: nat, n: nat, before: seq<byte>, now: seq<byte>)
    requires Reading(v, head, c, n, before, now) && CLUSTER_SIZE * (n + 1) <= |before|
    ensures |now| == |before| && c < CLUSTER_MAP_SIZE && n < |Chain(v.fat, head)|
    ensures var next, after := v.fat[c], now[..CLUSTER_SIZE * n] + v.raw[c] + now[CLUSTER_SIZE * n + CLUSTER_SIZE..];
            if next == END_OF_FILE then
              n + 1 == |Chain(v.fat, head)|
              && after == Content(v.raw, Chain(v.fat, head)) + before[CLUSTER_SIZE * (n + 1)..]
            else n + 1 < |Chain(v.fat, head)| && Reading(v, head, next, n + 1, before, after)
  {
    hide Chain, Walkable;
    var cells := Chain(v.fat, head);
    WalkableStep(v.fat, c);
    ContentLength(v.raw, cells[..n]);
    assert cells[n] == cells[n..][0] == c;
    assert cells[..n + 1][..n] == cells[..n];
    assert now[..CLUSTER_SIZE * n] == Content(v.raw, cells[..n]);
    assert now[CLUSTER_SIZE * n + CLUSTER_SIZE..] == before[CLUSTER_SIZE * (n + 1)..];
    assert cells[n + 1..] == cells[n..][1..];
    if v.fat[c] == END_OF_FILE {
      assert cells[..n + 1] == cells;
    }
  }
}
