/** FAT and exFAT volumes as they are written, from the boot area to the clusters, and files read back from them. */
module VolumeImage {
  import opened Bytes
  import opened ClusterChain
  import opened FatTable
  import opened ChainData

  // What stands before the volume, its boot area, the first table, the rest up to the clusters, the clusters, and
  // what follows.
  datatype Volume = Volume(
    before: seq<byte>, boot: seq<byte>, table: seq<byte>, more: seq<byte>, clusters: seq<seq<byte>>, after: seq<byte>)

  function Join(parts: seq<seq<byte>>): seq<byte> {
    if parts == [] then [] else parts[0] + Join(parts[1..])
  }

  function ImageOf(v: Volume): seq<byte> {
    v.before + v.boot + v.table + v.more + (Join(v.clusters) + v.after)
  }

  // Sectors of `bytes` bytes.
  function SectorBytes(sectors: nat, bytes: nat): nat {
    sectors * bytes
  }

  // All clusters have the size the boot sector says.
  predicate ValidVolume(v: Volume, bpb: FatBootSector) {
    && |ImageOf(v)| <= U64_MAX
    && forall k | 0 <= k < |v.clusters| :: |v.clusters[k]| == SectorBytes(bpb.sectorsPerCluster, bpb.bytesPerSector)
  }

  // The clusters start at sector `fds` of the volume.
  predicate DataAtSector(v: Volume, bpb: FatBootSector, fds: nat) {
    |v.boot| + |v.table| + |v.more| == SectorBytes(fds, bpb.bytesPerSector)
  }

  lemma {:induction false} JoinedAt(parts: seq<seq<byte>>, size: nat, k: nat, n: nat)
    requires k < |parts| && n <= size && forall i | 0 <= i < |parts| :: |parts[i]| == size
    ensures k * size + n <= |Join(parts)| && Join(parts)[k * size..k * size + n] == parts[k][..n]
    decreases k
  {
    var rest := Join(parts[1..]);
    if k > 0 {
      JoinedAt(parts[1..], size, k - 1, n);
      assert k * size == size + (k - 1) * size;
      var o := (k - 1) * size;
      assert (parts[0] + rest)[size + o..size + o + n] == rest[o..o + n];
    }
  }

  // A part of the image read at its place.
  lemma PartRead(pre: seq<byte>, part: seq<byte>, post: seq<byte>, o: nat, n: nat)
    requires o + n <= |part|
    ensures ReadExact(pre + part + post, |pre| + o, n) == Some(part[o..o + n])
  {
    assert (pre + part + post)[|pre| + o..|pre| + o + n] == part[o..o + n];
  }

  /** The bytes of cluster `c` are read from the place of cluster `c`, the first being number 2. */
  lemma ClusterRead(v: Volume, bpb: FatBootSector, fds: nat, c: nat, n: nat)
    requires ValidVolume(v, bpb) && DataAtSector(v, bpb, fds) && 2 <= c < 2 + |v.clusters| && n <= |v.clusters[c - 2]|
    ensures ReadExact(ImageOf(v), ClusterToByteOffset(|v.before|, bpb, fds, c), n) == Some(v.clusters[c - 2][..n])
  {
    hide ReadExact, Join, ClusterToByteOffset, SectorBytes;
    var pre, size := v.before + v.boot + v.table + v.more, SectorBytes(bpb.sectorsPerCluster, bpb.bytesPerSector);
    var o := (c - 2) * size;
    JoinedAt(v.clusters, size, c - 2, n);
    assert ImageOf(v) == pre + Join(v.clusters) + v.after;
    hide ImageOf;
    PartRead(pre, Join(v.clusters), v.after, o, n);
    OffsetAt(v, bpb, fds, c);
  }

  lemma OffsetAt(v: Volume, bpb: FatBootSector, fds: nat, c: nat)
    requires ValidVolume(v, bpb) && DataAtSector(v, bpb, fds) && 2 <= c < 2 + |v.clusters|
    ensures ClusterToByteOffset(|v.before|, bpb, fds, c)
            == |v.before| + |v.boot| + |v.table| + |v.more|
              + (c - 2) * SectorBytes(bpb.sectorsPerCluster, bpb.bytesPerSector)
  {
    var s, b := bpb.sectorsPerCluster, bpb.bytesPerSector;
    JoinedAt(v.clusters, SectorBytes(s, b), c - 2, 0);
    assert (fds + (c - 2) * s) * b == fds * b + (c - 2) * (s * b) by {
      Distribute(fds, c - 2, s, b);
    }
  }

  lemma Distribute(f: nat, k: nat, s: nat, b: nat)
    ensures (f + k * s) * b == f * b + k * (s * b)
  {
    calc {
      (f + k * s) * b;
      f * b + k * s * b;
      { assert k * s * b == k * (s * b); }
      f * b + k * (s * b);
    }
  }

  // The clusters of a chain, one after another.
  function ChainBytes(v: Volume, chain: seq<nat>): seq<byte>
    requires forall k | 0 <= k < |chain| :: 2 <= chain[k] < 2 + |v.clusters|
  {
    if chain == [] then [] else v.clusters[chain[0] - 2] + ChainBytes(v, chain[1..])
  }

  /** Reading a chain gives the bytes of its clusters in order, as far as `room` allows. */
  lemma {:induction false} ChainRead(v: Volume, bpb: FatBootSector, fds: nat, chain: seq<nat>, room: nat)
    requires ValidVolume(v, bpb) && DataAtSector(v, bpb, fds)
    requires forall k | 0 <= k < |chain| :: 2 <= chain[k] < 2 + |v.clusters|
    ensures DataFrom(ImageOf(v), |v.before|, bpb, fds, chain, room)
            == ChainBytes(v, chain)[..Min(room, |ChainBytes(v, chain)|)]
    decreases |chain|
  {
    hide ReadExact, ImageOf, ClusterToByteOffset, DataAtSector;
    if chain != [] && room > 0 {
      var first := v.clusters[chain[0] - 2];
      var n := Min(room, |first|);
      ClusterRead(v, bpb, fds, chain[0], n);
      ChainRead(v, bpb, fds, chain[1..], room - n);
      var rest := ChainBytes(v, chain[1..]);
      assert (first + rest)[..Min(room, |first + rest|)] == first[..n] + rest[..Min(room - n, |rest|)];
    }
  }

  // The first table of the volume is the packed map, behind the reserved sectors.
  predicate HoldsMap(v: Volume, bpb: FatBootSector, cells: seq<nat>) {
    && |v.boot| == SectorBytes(bpb.reservedSectors, bpb.bytesPerSector)
    && ValidCells(bpb.fatType, cells) && v.table == PackFat(bpb.fatType, cells)
  }

  lemma TablePlace(v: Volume, bpb: FatBootSector, cells: seq<nat>)
    requires ValidVolume(v, bpb) && HoldsMap(v, bpb, cells)
    ensures TableAt(ImageOf(v), FatOffset(|v.before|, bpb), PackFat(bpb.fatType, cells))
  {
    hide PackFat, ValidCells;
    var pre, post := v.before + v.boot, v.more + (Join(v.clusters) + v.after);
    assert ImageOf(v) == pre + v.table + post;
    assert (pre + v.table + post)[|pre|..|pre| + |v.table|] == v.table;
  }

  /**
   From the written volume to the bytes of a file: the reader's chain is the map's own walk from the first
   cluster, and its data the contents of those clusters in that order, cut at the size.
   */
  lemma FileRoundTrip(v: Volume, bpb: FatBootSector, fds: nat, cells: seq<nat>, start: nat, max: nat, size: nat,
                      r: ChainResult)
    requires ValidVolume(v, bpb) && DataAtSector(v, bpb, fds) && HoldsMap(v, bpb, cells)
    requires 2 <= start && |cells| <= 2 + |v.clusters| && !RunsOff(TableLinks(bpb.fatType, cells), start, max)
    requires ChainSpec(FatLinks(ImageOf(v), |v.before|, bpb), start, max, r)
    ensures r.Chain? && Longest(TableLinks(bpb.fatType, cells), start, max, r.clusters)
    ensures forall k | 0 <= k < |r.clusters| :: 2 <= r.clusters[k] < 2 + |v.clusters|
    ensures DataFrom(ImageOf(v), |v.before|, bpb, fds, r.clusters, size)
            == ChainBytes(v, r.clusters)[..Min(size, |ChainBytes(v, r.clusters)|)]
  {
    hide ImageOf, FatOffset, PackFat, TableAt, RunsOff, FatLinks, ValidCells, Longest, DataAtSector, HoldsMap,
         ValidVolume;
    TablePlace(v, bpb, cells);
    PackedMap(v, bpb, cells, start, max, r);
    WalkInside(TableLinks(bpb.fatType, cells), cells, bpb.fatType, start, max, r.clusters);
    ChainRead(v, bpb, fds, r.clusters, size);
  }

  lemma PackedMap(v: Volume, bpb: FatBootSector, cells: seq<nat>, start: nat, max: nat, r: ChainResult)
    requires ValidVolume(v, bpb) && HoldsMap(v, bpb, cells) && start >= 2
    requires !RunsOff(TableLinks(bpb.fatType, cells), start, max)
    requires ChainSpec(FatLinks(ImageOf(v), |v.before|, bpb), start, max, r)
    ensures r.Chain? && Longest(TableLinks(bpb.fatType, cells), start, max, r.clusters)
  {
    hide ImageOf, FatOffset, PackFat, TableAt, RunsOff, FatLinks, ValidCells, Longest;
    TablePlace(v, bpb, cells);
    PackedChain(ImageOf(v), |v.before|, bpb, cells, start, max, r);
  }

  // A walk that stays in the map meets only its clusters.
  lemma WalkInside(links: Links, cells: seq<nat>, t: FatType, start: nat, max: nat, chain: seq<nat>)
    requires start >= 2 && links == TableLinks(t, cells) && Longest(links, start, max, chain)
             && !RunsOff(links, start, max)
    ensures forall k | 0 <= k < |chain| :: 2 <= chain[k] < |cells|
  {
    forall k | 0 <= k < |chain|
      ensures 2 <= chain[k] < |cells|
    {
      WalkPrefix(links, start, chain, k + 1);
      assert links(chain[..k + 1][k]) != Unreadable;
      if k > 0 {
        assert links(chain[k - 1]) == Next(chain[k]);
      }
    }
  }

  lemma WalkPrefix(links: Links, start: nat, chain: seq<nat>, n: nat)
    requires IsWalk(links, start, chain) && n <= |chain|
    ensures IsWalk(links, start, chain[..n])
  {
  }

  /** On an exFAT volume whose boot area ends where the table begins, the chain is the map's own walk too. */
  lemma ExfatChainRoundTrip(v: Volume, bpb: ExfatBootSector, cells: seq<nat>, start: nat, max: nat, r: ChainResult)
    requires |ImageOf(v)| <= U64_MAX && |v.boot| == SectorBytes(bpb.fatOffsetSectors, bpb.bytesPerSector)
    requires ValidCells(Fat32, cells) && v.table == PackCells(cells, 4) && start >= 2
    requires !RunsOff(ExfatTableLinks(cells), start, max)
    requires ChainSpec(ExfatLinks(ImageOf(v), |v.before|, bpb), start, max, r)
    ensures r.Chain? && Longest(ExfatTableLinks(cells), start, max, r.clusters)
  {
    hide PackCells, ValidCells, RunsOff, Longest, ExfatLinks, Join;
    var pre, post := v.before + v.boot, v.more + (Join(v.clusters) + v.after);
    assert ImageOf(v) == pre + v.table + post;
    assert (pre + v.table + post)[|pre|..|pre| + |v.table|] == v.table;
    PackedExfatChain(ImageOf(v), |v.before|, bpb, cells, start, max, r);
  }
}
