/** Following and reading cluster chains: src/fs/fat.rs and src/fs/exfat.rs. */
module ClusterChain {
  import opened Bytes

  datatype FatType = Fat12 | Fat16 | Fat32

  // The boot-sector fields that cluster arithmetic uses.
  datatype FatBootSector = FatBootSector(
    fatType: FatType, bytesPerSector: nat, sectorsPerCluster: nat, reservedSectors: nat)

  datatype ExfatBootSector = ExfatBootSector(
    bytesPerSector: nat, sectorsPerCluster: nat, fatOffsetSectors: nat, clusterHeapOffsetSectors: nat)

  // What the table says of a cluster.
  datatype Link = Next(cluster: nat) | End | Unreadable

  type Links = nat -> Link

  datatype ChainResult = Chain(clusters: seq<nat>) | IoError

  /* Reading one table entry */

  function EndMark(t: FatType): nat {
    match t
    case Fat12 => 0x0FF8
    case Fat16 => 0xFFF8
    case Fat32 => 0x0FFF_FFF8
  }

  function Classify(t: FatType, value: nat): Link {
    if 2 <= value < EndMark(t) then Next(value) else End
  }

  function FatOffset(partOffset: nat, bpb: FatBootSector): nat {
    SatAdd(partOffset, bpb.reservedSectors * bpb.bytesPerSector)
  }

  function ReadNextCluster(disk: seq<byte>, partOffset: nat, bpb: FatBootSector, cluster: nat): Link {
    var table := FatOffset(partOffset, bpb);
    match bpb.fatType
    case Fat32 =>
      var read := ReadExact(disk, SatAdd(table, cluster * 4), 4);
      if read.None? then Unreadable else Classify(Fat32, Le(read.value) % 0x1000_0000)
    case Fat16 =>
      var read := ReadExact(disk, SatAdd(table, cluster * 2), 2);
      if read.None? then Unreadable else Classify(Fat16, Le(read.value))
    case Fat12 =>
      var read := ReadExact(disk, SatAdd(table, cluster * 3 / 2), 2);
      if read.None? then Unreadable else
        var raw := Le(read.value);
        Classify(Fat12, if cluster % 2 == 0 then raw % 0x1000 else raw / 16)
  }

  function FatLinks(disk: seq<byte>, partOffset: nat, bpb: FatBootSector): Links {
    (c: nat) => ReadNextCluster(disk, partOffset, bpb, c)
  }

  // exFAT ends a chain at the bad-cluster mark too, where the FAT readers go on.
  function ClassifyExfat(value: nat): Link {
    if value >= 0xFFFF_FFF8 || value == 0xFFFF_FFF7 || value < 2 then End else Next(value)
  }

  function ExfatTable(partOffset: nat, bpb: ExfatBootSector): nat {
    SatAdd(partOffset, SatMul(bpb.fatOffsetSectors, bpb.bytesPerSector))
  }

  function ExfatLinks(disk: seq<byte>, partOffset: nat, bpb: ExfatBootSector): Links {
    (c: nat) =>
      var read := ReadExact(disk, SatAdd(ExfatTable(partOffset, bpb), SatMul(c, 4)), 4);
      if read.None? then Unreadable else ClassifyExfat(Le(read.value))
  }

  /* The longest walk without repetition */

  predicate IsWalk(links: Links, start: nat, chain: seq<nat>) {
    && (chain != [] ==> chain[0] == start)
    && (forall i | 0 <= i < |chain| - 1 :: links(chain[i]) == Next(chain[i + 1]))
    && forall i, j | 0 <= i < j < |chain| :: chain[i] != chain[j]
  }

  // Nothing can be added to the chain: it is full, the table ends it, or it would repeat a cluster.
  predicate Stuck(links: Links, max: nat, chain: seq<nat>) {
    || |chain| == max
    || (chain != [] && match links(chain[|chain| - 1])
                       case Next(c) => c in chain
                       case End => true
                       case Unreadable => false)
  }

  predicate Longest(links: Links, start: nat, max: nat, chain: seq<nat>) {
    IsWalk(links, start, chain) && |chain| <= max && Stuck(links, max, chain)
  }

  // A walk of at most `max` clusters ends at an entry that cannot be read.
  ghost predicate RunsOff(links: Links, start: nat, max: nat) {
    exists chain :: IsWalk(links, start, chain) && 0 < |chain| <= max && links(chain[|chain| - 1]) == Unreadable
  }

  lemma {:induction false} WalksAgree(links: Links, start: nat, a: seq<nat>, b: seq<nat>, n: nat)
    requires IsWalk(links, start, a) && IsWalk(links, start, b) && n <= |a| && n <= |b|
    ensures a[..n] == b[..n]
  {
    if n > 0 {
      WalksAgree(links, start, a, b, n - 1);
      if n > 1 {
        assert a[..n - 1][n - 2] == b[..n - 1][n - 2];
        assert links(a[n - 2]) == Next(a[n - 1]) && links(b[n - 2]) == Next(b[n - 1]);
      }
      assert a[..n] == a[..n - 1] + [a[n - 1]] && b[..n] == b[..n - 1] + [b[n - 1]];
    }
  }

  lemma WalkGoesOn(links: Links, start: nat, a: seq<nat>, b: seq<nat>)
    requires IsWalk(links, start, b) && 0 < |a| < |b| && a[..|a|] == b[..|a|]
    ensures links(a[|a| - 1]) == Next(b[|a|]) && b[|a|] !in a
  {
    assert a[|a| - 1] == b[..|a|][|a| - 1];
    forall k | 0 <= k < |a|
      ensures a[k] == b[k]
    {
      assert a[..|a|][k] == b[..|a|][k];
    }
  }

  // A stuck walk is not shorter than any other walk within the limit.
  lemma StuckIsLongest(links: Links, start: nat, max: nat, a: seq<nat>, b: seq<nat>)
    requires Longest(links, start, max, a) && IsWalk(links, start, b) && |b| <= max
    ensures |b| <= |a| && b == a[..|b|]
  {
    if |b| > |a| {
      WalksAgree(links, start, a, b, |a|);
      if a != [] {
        WalkGoesOn(links, start, a, b);
      }
      assert false;
    }
    WalksAgree(links, start, a, b, |b|);
  }

  /** The longest duplicate-free walk is unique, and every such walk within the limit is a prefix of it. */
  lemma LongestUnique(links: Links, start: nat, max: nat, a: seq<nat>, b: seq<nat>)
    requires Longest(links, start, max, a) && Longest(links, start, max, b)
    ensures a == b
  {
    StuckIsLongest(links, start, max, a, b);
    StuckIsLongest(links, start, max, b, a);
  }

  /** What a chain reader must return: the longest walk, or an error exactly when that walk runs off the disk. */
  ghost predicate ChainSpec(links: Links, start: nat, max: nat, r: ChainResult) {
    match r
    case Chain(c) => if start < 2 then c == [] else Longest(links, start, max, c) && !RunsOff(links, start, max)
    case IoError => start >= 2 && RunsOff(links, start, max)
  }

  lemma ReadableChain(links: Links, start: nat, max: nat, chain: seq<nat>)
    requires Longest(links, start, max, chain) && forall i | 0 <= i < |chain| :: links(chain[i]) != Unreadable
    ensures !RunsOff(links, start, max)
  {
    if RunsOff(links, start, max) {
      var b :| IsWalk(links, start, b) && 0 < |b| <= max && links(b[|b| - 1]) == Unreadable;
      StuckIsLongest(links, start, max, chain, b);
    }
  }

  lemma PushCluster(links: Links, start: nat, chain: seq<nat>, current: nat)
    requires IsWalk(links, start, chain) && current !in chain
    requires if chain == [] then current == start else links(chain[|chain| - 1]) == Next(current)
    ensures IsWalk(links, start, chain + [current])
  {
  }

  method ReadClusterChain(disk: seq<byte>, partOffset: nat, bpb: FatBootSector, start: nat, max: nat)
    returns (r: ChainResult)
    ensures ChainSpec(FatLinks(disk, partOffset, bpb), start, max, r)
  {
    if start < 2 {
      return Chain([]);
    }
    ghost var links := FatLinks(disk, partOffset, bpb);
    var chain: seq<nat> := [];
    var visited: set<nat> := {};
    var current := start;
    assert IsWalk(links, start, []);
    hide ReadNextCluster, IsWalk;
    while |chain| < max && current !in visited
      invariant |chain| <= max && visited == (set c | c in chain)
      invariant IsWalk(links, start, chain)
      invariant forall i | 0 <= i < |chain| :: links(chain[i]) != Unreadable
      invariant if chain == [] then current == start else links(chain[|chain| - 1]) == Next(current)
      decreases max - |chain|
    {
      PushCluster(links, start, chain, current);
      visited := visited + {current};
      chain := chain + [current];
      var link := ReadNextCluster(disk, partOffset, bpb, current);
      assert link == links(current);
      if link.Unreadable? {
        return IoError;
      }
      if link.End? {
        break;
      }
      current := link.cluster;
    }
    assert Longest(links, start, max, chain);
    ReadableChain(links, start, max, chain);
    r := Chain(chain);
  }

  method ReadExfatClusterChain(disk: seq<byte>, partOffset: nat, bpb: ExfatBootSector, start: nat, max: nat)
    returns (r: ChainResult)
    ensures ChainSpec(ExfatLinks(disk, partOffset, bpb), start, max, r)
  {
    if start < 2 {
      return Chain([]);
    }
    ghost var links := ExfatLinks(disk, partOffset, bpb);
    var chain: seq<nat> := [];
    var visited: set<nat> := {};
    var current := start;
    var table := ExfatTable(partOffset, bpb);
    assert IsWalk(links, start, []);
    hide Le, SatAdd, SatMul, IsWalk;
    while current >= 2 && |chain| < max
      invariant current >= 2 && |chain| <= max && visited == (set c | c in chain)
      invariant IsWalk(links, start, chain)
      invariant forall i | 0 <= i < |chain| :: links(chain[i]) != Unreadable
      invariant if chain == [] then current == start else links(chain[|chain| - 1]) == Next(current)
      decreases max - |chain|
    {
      if current in visited {
        break;
      }
      PushCluster(links, start, chain, current);
      visited := visited + {current};
      chain := chain + [current];
      var read := ReadExact(disk, SatAdd(table, SatMul(current, 4)), 4);
      if read.None? {
        assert links(current) == Unreadable;
        return IoError;
      }
      var next := Le(read.value);
      assert links(current) == ClassifyExfat(next);
      if next >= 0xFFFF_FFF8 || next == 0xFFFF_FFF7 || next < 2 {
        break;
      }
      current := next;
    }
    assert Longest(links, start, max, chain);
    ReadableChain(links, start, max, chain);
    r := Chain(chain);
  }
}
