/** The on-disk byte layout of the file system: fixed-width words, FAT cells and
    directory entries, and the proof that reading bytes as a structure and a
    structure as bytes are inverse. The driver copies packed structures to and
    from disk blocks; these functions are what that reinterpretation means. */
module Layout {

  type byte = x: int | 0 <= x < 0x100
  type uint16 = x: int | 0 <= x < 0x1_0000
  type uint32 = x: int | 0 <= x < 0x1_0000_0000

  type Name = s: seq<byte> | |s| == 8 witness [0, 0, 0, 0, 0, 0, 0, 0]
  type Ext = s: seq<byte> | |s| == 3 witness [0, 0, 0]
  type Stamps = s: seq<byte> | |s| == 7 witness [0, 0, 0, 0, 0, 0, 0]
  type Modified = s: seq<byte> | |s| == 4 witness [0, 0, 0, 0]

  const BLOCK_SIZE := 512
  const CLUSTER_BLOCK_COUNT := 4
  const CLUSTER_SIZE := 2048
  const CLUSTER_MAP_SIZE := 512
  const TABLE_SIZE := 64

  const NO_NAME: Name := [0, 0, 0, 0, 0, 0, 0, 0]
  const NO_EXT: Ext := [0, 0, 0]
  const ROOT_NAME: Name := [0x72, 0x6F, 0x6F, 0x74, 0, 0, 0, 0]

  /** One 32-byte directory entry. `stamps` and `modified` are the fields the
      driver never looks at. */
  datatype Entry = Entry(name: Name, ext: Ext, attribute: byte, userAttribute: byte, stamps: Stamps,
                         high: uint16, modified: Modified, low: uint16, filesize: uint32)

  const ZERO_ENTRY := Entry(NO_NAME, NO_EXT, 0, 0, [0, 0, 0, 0, 0, 0, 0], 0, [0, 0, 0, 0], 0, 0)

  // -- Words --

  function HalfBytes(w: uint16): (b: seq<byte>)
    ensures |b| == 2
  {
    [w % 0x100, w / 0x100]
  }

  function HalfOf(b: seq<byte>): uint16
    requires |b| == 2
  {
    b[0] as int + 0x100 * b[1] as int
  }

  function WordBytes(w: uint32): (b: seq<byte>)
    ensures |b| == 4
  {
    [w % 0x100, w / 0x100 % 0x100, w / 0x1_0000 % 0x100, w / 0x100_0000]
  }

  function WordOf(b: seq<byte>): uint32
    requires |b| == 4
  {
    b[0] as int + 0x100 * b[1] as int + 0x1_0000 * b[2] as int + 0x100_0000 * b[3] as int
  }

  lemma WordRoundTrip(w: uint32)
    ensures WordOf(WordBytes(w)) == w
  {
    var q := w / 0x100;
    assert w / 0x1_0000 == q / 0x100;
    assert w / 0x100_0000 == q / 0x100 / 0x100;
  }

  lemma BytesRoundTrip(b: seq<byte>)
    requires |b| == 4
    ensures WordBytes(WordOf(b)) == b
  {
    var w := WordOf(b);
    assert w / 0x100 == b[1] as int + 0x100 * b[2] as int + 0x1_0000 * b[3] as int;
    assert w / 0x1_0000 == b[2] as int + 0x100 * b[3] as int;
    assert w / 0x100_0000 == b[3];
  }

  /** The cluster number an entry stores in two halves. */
  function ClusterNo(e: Entry): uint32 {
    e.low as int + 0x1_0000 * e.high as int
  }

  lemma ClusterSplit(c: uint32)
    ensures forall e: Entry :: e.high == c / 0x1_0000 % 0x1_0000 && e.low == c % 0x1_0000 ==> ClusterNo(e) == c
  {
  }

  // -- FAT cells --

  function CellsOf(b: seq<byte>): (cells: seq<uint32>)
    ensures |cells| == |b| / 4
  {
    seq(|b| / 4, i requires 0 <= i < |b| / 4 => WordOf(b[4 * i..4 * i + 4]))
  }

  function CellBytes(cells: seq<uint32>): (b: seq<byte>)
    ensures |b| == 4 * |cells|
  {
    seq(4 * |cells|, i requires 0 <= i < 4 * |cells| => WordBytes(cells[i / 4])[i % 4])
  }

  lemma CellsRoundTrip(cells: seq<uint32>)
    ensures CellsOf(CellBytes(cells)) == cells
  {
    hide WordBytes, WordOf;
    var b := CellBytes(cells);
    forall i | 0 <= i < |cells| ensures CellsOf(b)[i] == cells[i] {
      forall k | 0 <= k < 4 ensures b[4 * i..4 * i + 4][k] == WordBytes(cells[i])[k] {
        assert (4 * i + k) / 4 == i && (4 * i + k) % 4 == k;
      }
      assert b[4 * i..4 * i + 4] == WordBytes(cells[i]);
      WordRoundTrip(cells[i]);
    }
  }

  lemma CellBytesRoundTrip(b: seq<byte>)
    requires |b| % 4 == 0
    ensures CellBytes(CellsOf(b)) == b
  {
    hide WordBytes, WordOf;
    var cells := CellsOf(b);
    forall j | 0 <= j < |b| ensures CellBytes(cells)[j] == b[j] {
      var i := j / 4;
      BytesRoundTrip(b[4 * i..4 * i + 4]);
      assert b[4 * i..4 * i + 4][j % 4] == b[j];
    }
  }

  // -- Directory entries and tables --

  function EntryBytes(e: Entry): (b: seq<byte>)
    ensures |b| == 32
  {
    e.name + e.ext + [e.attribute, e.userAttribute] + e.stamps + HalfBytes(e.high)
    + e.modified + HalfBytes(e.low) + WordBytes(e.filesize)
  }

  function EntryOf(b: seq<byte>): Entry
    requires |b| == 32
  {
    Entry(b[..8], b[8..11], b[11], b[12], b[13..20], HalfOf(b[20..22]), b[22..26], HalfOf(b[26..28]), WordOf(b[28..32]))
  }

  lemma TailOf(front: seq<byte>, back: seq<byte>, whole: seq<byte>)
    requires whole == front + back
    ensures whole[|front|..|whole|] == back
  {
  }

  lemma EntryRoundTrip(e: Entry)
    ensures EntryOf(EntryBytes(e)) == e
  {
    var b := EntryBytes(e);
    assert b[..8] == e.name;
    assert b[8..11] == e.ext;
    assert b[13..20] == e.stamps;
    assert b[20..22] == HalfBytes(e.high);
    assert b[22..26] == e.modified;
    assert b[26..28] == HalfBytes(e.low);
    var front := e.name + e.ext + [e.attribute, e.userAttribute] + e.stamps + HalfBytes(e.high)
                 + e.modified + HalfBytes(e.low);
    assert |front| == 28;
    TailOf(front, WordBytes(e.filesize), b);
    WordRoundTrip(e.filesize);
  }

  lemma EntryBytesRoundTrip(b: seq<byte>)
    requires |b| == 32
    ensures EntryBytes(EntryOf(b)) == b
  {
    BytesRoundTrip(b[28..32]);
    assert HalfBytes(HalfOf(b[20..22])) == b[20..22];
    assert HalfBytes(HalfOf(b[26..28])) == b[26..28];
  }

  function TableOf(b: seq<byte>): (t: seq<Entry>)
    ensures |t| == |b| / 32
  {
    if |b| < 32 then [] else [EntryOf(b[..32])] + TableOf(b[32..])
  }

  function TableBytes(t: seq<Entry>): (b: seq<byte>)
    ensures |b| == 32 * |t|
  {
    if t == [] then [] else EntryBytes(t[0]) + TableBytes(t[1..])
  }

  lemma {:induction false} TableRoundTrip(t: seq<Entry>)
    ensures TableOf(TableBytes(t)) == t
  {
    if t != [] {
      var b := TableBytes(t);
      assert b[..32] == EntryBytes(t[0]) && b[32..] == TableBytes(t[1..]);
      EntryRoundTrip(t[0]);
      TableRoundTrip(t[1..]);
    }
  }

  lemma {:induction false} TableBytesRoundTrip(b: seq<byte>)
    requires |b| % 32 == 0
    ensures TableBytes(TableOf(b)) == b
  {
    if b != [] {
      EntryBytesRoundTrip(b[..32]);
      TableBytesRoundTrip(b[32..]);
      assert b == b[..32] + b[32..];
    }
  }

  // -- Where each byte lies --

  /** The value of two bytes, and of four, the lowest first. */
  predicate IsHalf(h: int, b0: int, b1: int) {
    h == b0 + 256 * b1
  }

  predicate IsWord(w: int, b0: int, b1: int, b2: int, b3: int) {
    w == b0 + 256 * b1 + 65536 * b2 + 16777216 * b3
  }

  lemma LittleEndian(h: uint16, w: uint32)
    ensures IsHalf(h, HalfBytes(h)[0], HalfBytes(h)[1])
    ensures IsWord(w, WordBytes(w)[0], WordBytes(w)[1], WordBytes(w)[2], WordBytes(w)[3])
  {
    var q := w / 0x100;
    assert w / 0x1_0000 == q / 0x100;
    assert w / 0x100_0000 == q / 0x100 / 0x100;
  }

  /** The packed record of 32 bytes, field by field. */
  lemma EntryLayout(e: Entry)
    ensures var b := EntryBytes(e);
            && |b| == 32 && b[0..8] == e.name && b[8..11] == e.ext && b[11] == e.attribute && b[12] == e.userAttribute
            && b[13..20] == e.stamps && b[22..26] == e.modified
            && IsHalf(e.high, b[20], b[21]) && IsHalf(e.low, b[26], b[27])
            && IsWord(e.filesize, b[28], b[29], b[30], b[31])
  {
    hide WordBytes, HalfBytes;
    var b := EntryBytes(e);
    LittleEndian(e.high, e.filesize);
    LittleEndian(e.low, e.filesize);
    assert b[20..22] == HalfBytes(e.high) && b[26..28] == HalfBytes(e.low) && b[28..32] == WordBytes(e.filesize);
    assert b[20] == b[20..22][0] && b[21] == b[20..22][1] && b[26] == b[26..28][0] && b[27] == b[26..28][1];
    assert forall k :: 0 <= k < 4 ==> b[28 + k] == b[28..32][k];
  }

  /** Entry `i` of a table has the 32 bytes from 32 * i on. */
  lemma {:induction false} TableLayout(t: seq<Entry>, i: nat)
    requires i < |t|
    ensures TableBytes(t)[32 * i..32 * i + 32] == EntryBytes(t[i])
  {
    hide EntryBytes;
    if i == 0 {
      assert TableBytes(t)[..32] == EntryBytes(t[0]);
    } else {
      TableLayout(t[1..], i - 1);
      assert TableBytes(t)[32..] == TableBytes(t[1..]);
      assert TableBytes(t)[32 * i..32 * i + 32] == TableBytes(t)[32..][32 * (i - 1)..32 * (i - 1) + 32];
    }
  }

  /** Cell `c` of the map has the four bytes from 4 * c on. */
  lemma CellLayout(cells: seq<uint32>, c: nat)
    requires c < |cells|
    ensures var b := CellBytes(cells);
            IsWord(cells[c], b[4 * c], b[4 * c + 1], b[4 * c + 2], b[4 * c + 3])
  {
    hide WordBytes, IsWord;
    LittleEndian(0, cells[c]);
    assert 4 * c / 4 == (4 * c + 1) / 4 == (4 * c + 2) / 4 == (4 * c + 3) / 4 == c;
    assert 4 * c % 4 == 0 && (4 * c + 1) % 4 == 1 && (4 * c + 2) % 4 == 2 && (4 * c + 3) % 4 == 3;
  }
}
