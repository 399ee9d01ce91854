/** The disk under the driver: one array of bytes, copied to and from memory block
    by block. `Raw` is the same image seen as clusters. */
module DiskImage {
  import opened Layout

  const IMAGE_SIZE := 4 * 1024 * 1024

  class Disk {
    const image: array<byte>

    ghost predicate Valid() {
      image.Length == IMAGE_SIZE
    }

    /** The clusters the FAT can address. */
    ghost function Raw(): (raw: seq<seq<byte>>)
      requires Valid()
      reads image
      ensures |raw| == CLUSTER_MAP_SIZE
      ensures forall c :: 0 <= c < |raw| ==> |raw[c]| == CLUSTER_SIZE
    {
      seq(CLUSTER_MAP_SIZE, c requires 0 <= c < CLUSTER_MAP_SIZE reads image =>
        image[CLUSTER_SIZE * c..CLUSTER_SIZE * c + CLUSTER_SIZE])
    }

    /** What lies behind the clusters the FAT can address. */
    ghost function Tail(): (b: seq<byte>)
      requires Valid()
      reads image
    {
      image[0x10_0000..]
    }

    constructor (image: array<byte>)
      requires image.Length == IMAGE_SIZE
      ensures Valid() && this.image == image
    {
      this.image := image;
    }

    /** Copies `count` blocks starting at block `lba` into memory at `buf + off`. */
    method ReadBlocks(buf: array<byte>, off: nat, lba: nat, count: nat)
      requires Valid() && buf != image
      requires BLOCK_SIZE * (lba + count) <= IMAGE_SIZE
      requires off + BLOCK_SIZE * count <= buf.Length
      modifies buf
      ensures buf[..] == old(buf[..off]) + image[BLOCK_SIZE * lba..BLOCK_SIZE * (lba + count)]
                         + old(buf[off + BLOCK_SIZE * count..])
    {
      for i := 0 to count
        invariant forall k :: 0 <= k < off ==> buf[k] == old(buf[k])
        invariant forall k :: off <= k < off + BLOCK_SIZE * i ==> buf[k] == image[BLOCK_SIZE * lba + k - off]
        invariant forall k :: off + BLOCK_SIZE * i <= k < buf.Length ==> buf[k] == old(buf[k])
      {
        forall k | 0 <= k < BLOCK_SIZE {
          buf[off + BLOCK_SIZE * i + k] := image[BLOCK_SIZE * (lba + i) + k];
        }
      }
    }

    /** Copies the bytes `src`, a whole number of blocks, over the disk from block `lba`. */
    method WriteBlocks(src: seq<byte>, lba: nat, count: nat)
      requires Valid()
      requires BLOCK_SIZE * (lba + count) <= IMAGE_SIZE
      requires BLOCK_SIZE * count <= |src|
      modifies image
      ensures image[..] == old(image[..BLOCK_SIZE * lba]) + src[..BLOCK_SIZE * count]
                           + old(image[BLOCK_SIZE * (lba + count)..])
      ensures lba + count <= CLUSTER_BLOCK_COUNT * CLUSTER_MAP_SIZE ==> Tail() == old(Tail())
    {
      for i := 0 to count
        invariant forall k :: 0 <= k < BLOCK_SIZE * lba ==> image[k] == old(image[k])
        invariant forall k :: BLOCK_SIZE * lba <= k < BLOCK_SIZE * (lba + i) ==> image[k] == src[k - BLOCK_SIZE * lba]
        invariant forall k :: BLOCK_SIZE * (lba + i) <= k < image.Length ==> image[k] == old(image[k])
      {
        forall k | 0 <= k < BLOCK_SIZE {
          image[BLOCK_SIZE * (lba + i) + k] := src[BLOCK_SIZE * i + k];
        }
      }
    }

    method ReadClusters(buf: array<byte>, off: nat, cluster: nat)
      requires Valid() && buf != image
      requires cluster < CLUSTER_MAP_SIZE
      requires off + CLUSTER_SIZE <= buf.Length
      modifies buf
      ensures buf[..] == old(buf[..off]) + Raw()[cluster] + old(buf[off + CLUSTER_SIZE..])
      ensures Raw()[cluster] == image[2048 * cluster..2048 * cluster + 2048]
    {
      ReadBlocks(buf, off, cluster * CLUSTER_BLOCK_COUNT, CLUSTER_BLOCK_COUNT);
    }

    method WriteClusters(src: seq<byte>, cluster: nat)
      requires Valid()
      requires cluster < CLUSTER_MAP_SIZE && |src| == CLUSTER_SIZE
      modifies image
      ensures Raw() == old(Raw())[cluster := src] && Tail() == old(Tail())
      ensures image[..] == old(image[..2048 * cluster]) + src + old(image[2048 * cluster + 2048..])
    {
      WriteBlocks(src, cluster * CLUSTER_BLOCK_COUNT, CLUSTER_BLOCK_COUNT);
      ClustersApart(old(image[..]), src, cluster, image[..]);
    }
  }

  /** A write of one cluster's bytes leaves the bytes of every other cluster alone. */
  lemma ClustersApart(before: seq<byte>, src: seq<byte>, cluster: nat, after: seq<byte>)
    requires |before| == IMAGE_SIZE && cluster < CLUSTER_MAP_SIZE && |src| == CLUSTER_SIZE
    requires after == before[..CLUSTER_SIZE * cluster] + src + before[CLUSTER_SIZE * cluster + CLUSTER_SIZE..]
    ensures forall c :: 0 <= c < CLUSTER_MAP_SIZE ==>
              after[CLUSTER_SIZE * c..CLUSTER_SIZE * c + CLUSTER_SIZE]
              == if c == cluster then src else before[CLUSTER_SIZE * c..CLUSTER_SIZE * c + CLUSTER_SIZE]
  {
  }
}
