/**
 Reading file contents: cluster by cluster (src/fs/fat.rs), and straight on from the first cluster as
 the manifest hash (src/manifest/mod.rs) and the release copy (src/release/mod.rs) do.
 */
module ChainData {
  import opened Bytes
  import opened ClusterChain

  const COPY_CHUNK := 65536

  function ClusterBytes(bpb: FatBootSector): nat {
    bpb.sectorsPerCluster * bpb.bytesPerSector
  }

  function ClusterToByteOffset(partOffset: nat, bpb: FatBootSector, firstDataSector: nat, cluster: nat): nat {
    SatAdd(partOffset, (firstDataSector + SatSub(cluster, 2) * bpb.sectorsPerCluster) * bpb.bytesPerSector)
  }

  // The bytes of a chain, up to `room` of them, stopping at the first cluster that cannot be read.
  function DataFrom(disk: seq<byte>, partOffset: nat, bpb: FatBootSector, fds: nat, chain: seq<nat>,
                    room: nat): seq<byte>
    decreases |chain|
  {
    if chain == [] || room == 0 then [] else
      var read := ReadExact(disk, ClusterToByteOffset(partOffset, bpb, fds, chain[0]), Min(room, ClusterBytes(bpb)));
      if read.None? then []
      else read.value + DataFrom(disk, partOffset, bpb, fds, chain[1..], room - |read.value|)
  }

  method ReadChainData(disk: seq<byte>, partOffset: nat, bpb: FatBootSector, fds: nat, chain: seq<nat>, maxBytes: nat)
    returns (out: seq<byte>)
    ensures out == DataFrom(disk, partOffset, bpb, fds, chain, maxBytes)
  {
    hide ClusterToByteOffset, ClusterBytes;
    out := [];
    for k := 0 to |chain|
      invariant |out| <= maxBytes
      invariant out + DataFrom(disk, partOffset, bpb, fds, chain[k..], maxBytes - |out|)
                == DataFrom(disk, partOffset, bpb, fds, chain, maxBytes)
    {
      if |out| >= maxBytes {
        return;
      }
      var read := ReadExact(disk, ClusterToByteOffset(partOffset, bpb, fds, chain[k]),
                            Min(maxBytes - |out|, ClusterBytes(bpb)));
      if read.None? {
        return;
      }
      assert chain[k..][1..] == chain[k + 1..];
      ConcatAssociative(out, read.value,
                        DataFrom(disk, partOffset, bpb, fds, chain[k + 1..], maxBytes - |out| - |read.value|));
      out := out + read.value;
    }
  }

  // The read loop of `hash_discovered_files`: what reaches the hasher, or a read error.
  method HashedBytes(disk: seq<byte>, device: Reads, offset: nat, size: nat) returns (r: Option<seq<byte>>)
    ensures r.Some? ==> r.value == Straight(disk, offset, size)
    ensures r.None? ==> exists p: nat :: offset <= p < offset + size && device(p).None?
  {
    var hashed: seq<byte> := [];
    var remaining := size;
    while remaining > 0
      invariant 0 <= remaining <= size && |hashed| == size - remaining
      invariant remaining < size ==> offset + |hashed| <= |disk| && hashed == disk[offset..offset + |hashed|]
      decreases remaining
    {
      var read := ReadSome(disk, device, offset + |hashed|, Min(remaining, COPY_CHUNK));
      if read.None? {
        return None;
      }
      if read.value == [] {
        break;
      }
      var at := offset + |hashed|;
      assert disk[offset..at] + disk[at..at + |read.value|] == disk[offset..at + |read.value|];
      hashed := hashed + read.value;
      remaining := remaining - |read.value|;
    }
    r := Some(hashed);
  }

  // The copy loop of `release_snapshot_files`: what reaches the destination file, or a read error.
  method CopiedBytes(disk: seq<byte>, offset: nat, size: nat) returns (r: Option<seq<byte>>)
    ensures r.Some? <==> size == 0 || offset + size <= |disk|
    ensures r.Some? ==> r.value == Straight(disk, offset, size)
  {
    var copied: seq<byte> := [];
    var remaining := size;
    while remaining > 0
      invariant 0 <= remaining <= size && |copied| == size - remaining
      invariant remaining < size ==> offset + |copied| <= |disk| && copied == disk[offset..offset + |copied|]
      decreases remaining
    {
      var toRead := Min(remaining, COPY_CHUNK);
      var read := ReadExact(disk, offset + |copied|, toRead);
      if read.None? {
        return None;
      }
      var at := offset + |copied|;
      assert disk[offset..at] + disk[at..at + toRead] == disk[offset..at + toRead];
      copied := copied + read.value;
      remaining := remaining - toRead;
    }
    r := Some(copied);
  }

  // The bytes from `offset` on, up to `size` of them, as far as the disk goes.
  function Straight(disk: seq<byte>, offset: nat, size: nat): seq<byte> {
    if offset >= |disk| then [] else disk[offset..Min(offset + size, |disk|)]
  }

  /* When the straight read is the file */

  // The first `n` clusters of the chain lie one after the other.
  predicate Consecutive(chain: seq<nat>, n: nat)
    requires n <= |chain|
  {
    forall i | 0 <= i < n :: chain[i] == chain[0] + i
  }

  // Every cluster has a number, and an offset that does not saturate.
  predicate Addressable(partOffset: nat, bpb: FatBootSector, fds: nat, chain: seq<nat>) {
    forall i | 0 <= i < |chain| ::
      chain[i] >= 2 && partOffset + (fds + (chain[i] - 2) * bpb.sectorsPerCluster) * bpb.bytesPerSector <= U64_MAX
  }

  lemma OffsetLinear(partOffset: nat, bpb: FatBootSector, fds: nat, c: nat, d: nat)
    requires Addressable(partOffset, bpb, fds, [c, d])
    ensures ClusterToByteOffset(partOffset, bpb, fds, d)
            == ClusterToByteOffset(partOffset, bpb, fds, c) + (d - c) * ClusterBytes(bpb)
  {
    var s, b := bpb.sectorsPerCluster, bpb.bytesPerSector;
    assert [c, d][0] == c && [c, d][1] == d;
    calc {
      (fds + (d - 2) * s) * b;
      fds * b + (d - 2) * s * b;
      { assert (d - 2) * s * b == (d - 2) * (s * b); }
      fds * b + (d - 2) * (s * b);
      { assert (d - 2) * (s * b) == (c - 2) * (s * b) + (d - c) * (s * b); }
      fds * b + (c - 2) * (s * b) + (d - c) * (s * b);
      { assert (c - 2) * s * b == (c - 2) * (s * b); }
      (fds + (c - 2) * s) * b + (d - c) * (s * b);
    }
  }

  // Every cluster of the chain lies on a disk of `n` bytes.
  predicate Readable(partOffset: nat, bpb: FatBootSector, fds: nat, chain: seq<nat>, n: nat) {
    forall i | 0 <= i < |chain| :: ClusterToByteOffset(partOffset, bpb, fds, chain[i]) + ClusterBytes(bpb) <= n
  }

  // The clusters that `size` bytes touch.
  function Used(size: nat, clusterBytes: nat): nat
    requires clusterBytes > 0
  {
    (size + clusterBytes - 1) / clusterBytes
  }

  lemma UsedBound(size: nat, cb: nat, i: nat)
    requires cb > 0
    ensures i < Used(size, cb) <==> i * cb < size
  {
    var q, r := (size + cb - 1) / cb, (size + cb - 1) % cb;
    assert q * cb + r == size + cb - 1;
    if i < q {
      assert (i + 1) * cb <= q * cb;
    } else {
      assert q * cb <= i * cb;
    }
  }

  lemma {:induction false} ConsecutiveData(disk: seq<byte>, partOffset: nat, bpb: FatBootSector, fds: nat,
                                           chain: seq<nat>, room: nat)
    requires chain != [] && Addressable(partOffset, bpb, fds, chain) && ClusterBytes(bpb) > 0
    requires room <= |chain| * ClusterBytes(bpb) && Consecutive(chain, Min(Used(room, ClusterBytes(bpb)), |chain|))
    requires ClusterToByteOffset(partOffset, bpb, fds, chain[0]) + room <= |disk|
    ensures var o := ClusterToByteOffset(partOffset, bpb, fds, chain[0]);
            DataFrom(disk, partOffset, bpb, fds, chain, room) == disk[o..o + room]
    decreases |chain|
  {
    hide ClusterToByteOffset, ClusterBytes, Addressable, Used, Consecutive;
    var o, cb := ClusterToByteOffset(partOffset, bpb, fds, chain[0]), ClusterBytes(bpb);
    if room > cb {
      NextClusterFollows(partOffset, bpb, fds, chain, room);
      ConsecutiveData(disk, partOffset, bpb, fds, chain[1..], room - cb);
      assert disk[o..o + cb] + disk[o + cb..o + room] == disk[o..o + room];
    } else if room > 0 {
      assert DataFrom(disk, partOffset, bpb, fds, chain[1..], 0) == [];
    }
  }

  // Past the first cluster, the rest of a consecutive chain is consecutive and starts where the first ends.
  lemma NextClusterFollows(partOffset: nat, bpb: FatBootSector, fds: nat, chain: seq<nat>, room: nat)
    requires chain != [] && Addressable(partOffset, bpb, fds, chain) && ClusterBytes(bpb) > 0
    requires ClusterBytes(bpb) < room <= |chain| * ClusterBytes(bpb)
    requires Consecutive(chain, Min(Used(room, ClusterBytes(bpb)), |chain|))
    ensures var cb, rest := ClusterBytes(bpb), chain[1..];
            && rest != [] && Addressable(partOffset, bpb, fds, rest) && room - cb <= |rest| * cb
            && Consecutive(rest, Min(Used(room - cb, cb), |rest|))
            && ClusterToByteOffset(partOffset, bpb, fds, rest[0])
               == ClusterToByteOffset(partOffset, bpb, fds, chain[0]) + cb
  {
    var cb, rest := ClusterBytes(bpb), chain[1..];
    assert |chain| > 1 && room - cb <= |rest| * cb by {
      hide ClusterBytes;
      assert |chain| * cb == (|chain| - 1) * cb + cb;
    }
    UsedBound(room, cb, 1);
    assert chain[1] == chain[0] + 1;
    forall i | 0 <= i < |rest|
      ensures rest[i] == chain[i + 1]
    {
    }
    assert Addressable(partOffset, bpb, fds, rest) by {
      hide ClusterBytes, Used;
    }
    assert Addressable(partOffset, bpb, fds, [chain[0], chain[1]]) by {
      hide ClusterBytes, Used;
    }
    OffsetLinear(partOffset, bpb, fds, chain[0], chain[1]);
    forall i | 0 <= i < Min(Used(room - cb, cb), |rest|)
      ensures rest[i] == rest[0] + i
    {
      UsedBound(room - cb, cb, i);
      UsedBound(room, cb, i + 1);
      assert (i + 1) * cb == i * cb + cb;
    }
  }

  lemma FirstCluster(disk: seq<byte>, partOffset: nat, bpb: FatBootSector, fds: nat, chain: seq<nat>, room: nat)
    requires chain != [] && room > 0
             && ClusterToByteOffset(partOffset, bpb, fds, chain[0]) + ClusterBytes(bpb) <= |disk|
    ensures var o, k := ClusterToByteOffset(partOffset, bpb, fds, chain[0]), Min(room, ClusterBytes(bpb));
            DataFrom(disk, partOffset, bpb, fds, chain, room)
            == disk[o..o + k] + DataFrom(disk, partOffset, bpb, fds, chain[1..], room - k)
  {
    hide ClusterToByteOffset, ClusterBytes;
  }

  // Where cluster `i` of the chain appears in the data.
  lemma {:induction false} DataAt(disk: seq<byte>, partOffset: nat, bpb: FatBootSector, fds: nat, chain: seq<nat>,
                                  room: nat, i: nat)
    requires ClusterBytes(bpb) > 0 && Readable(partOffset, bpb, fds, chain, |disk|)
    requires i < |chain| && i * ClusterBytes(bpb) < room
    ensures var data := DataFrom(disk, partOffset, bpb, fds, chain, room);
            i * ClusterBytes(bpb) < |data|
            && data[i * ClusterBytes(bpb)] == disk[ClusterToByteOffset(partOffset, bpb, fds, chain[i])]
    decreases |chain|
  {
    var cb := ClusterBytes(bpb);
    hide ClusterToByteOffset, ClusterBytes, DataFrom;
    assert ClusterToByteOffset(partOffset, bpb, fds, chain[0]) + cb <= |disk|;
    FirstCluster(disk, partOffset, bpb, fds, chain, room);
    if i > 0 {
      var rest := chain[1..];
      var before := (i - 1) * cb;
      assert i * cb == cb + before;
      forall j | 0 <= j < |rest|
        ensures ClusterToByteOffset(partOffset, bpb, fds, rest[j]) + cb <= |disk|
      {
        assert rest[j] == chain[j + 1];
      }
      DataAt(disk, partOffset, bpb, fds, rest, room - cb, i - 1);
    }
  }

  lemma ScaleInjective(a: int, b: int, scale: nat)
    requires scale > 0 && a != b
    ensures a * scale != b * scale
  {
    if a < b {
      assert (a + 1) * scale <= b * scale;
    } else {
      assert (b + 1) * scale <= a * scale;
    }
  }

  lemma ClusterDistance(partOffset: nat, bpb: FatBootSector, fds: nat, chain: seq<nat>, i: nat)
    requires i < |chain| && Addressable(partOffset, bpb, fds, chain)
    ensures ClusterToByteOffset(partOffset, bpb, fds, chain[i])
            == ClusterToByteOffset(partOffset, bpb, fds, chain[0]) + (chain[i] - chain[0]) * ClusterBytes(bpb)
  {
    hide ClusterBytes, ClusterToByteOffset;
    OffsetLinear(partOffset, bpb, fds, chain[0], chain[i]);
  }

  lemma FragmentedDiffers(partOffset: nat, bpb: FatBootSector, fds: nat, chain: seq<nat>, size: nat, n: nat, i: nat)
    returns (disk: seq<byte>)
    requires chain != [] && Addressable(partOffset, bpb, fds, chain) && ClusterBytes(bpb) > 0
    requires Readable(partOffset, bpb, fds, chain, n)
    requires ClusterToByteOffset(partOffset, bpb, fds, chain[0]) + size <= n
    requires i < |chain| && i * ClusterBytes(bpb) < size && chain[i] != chain[0] + i
    ensures |disk| == n
    ensures DataFrom(disk, partOffset, bpb, fds, chain, size)
            != Straight(disk, ClusterToByteOffset(partOffset, bpb, fds, chain[0]), size)
  {
    hide ClusterBytes, ClusterToByteOffset, Addressable, DataFrom;
    var o, cb := ClusterToByteOffset(partOffset, bpb, fds, chain[0]), ClusterBytes(bpb);
    var at := ClusterToByteOffset(partOffset, bpb, fds, chain[i]);
    ClusterDistance(partOffset, bpb, fds, chain, i);
    ScaleInjective(chain[i] as int - chain[0] as int, i, cb);
    var mark := o + i * cb;
    disk := seq(n, k => if k == mark then 1 else 0);
    DataAt(disk, partOffset, bpb, fds, chain, size, i);
    assert at < n && disk[at] == 0;
    assert Straight(disk, o, size)[i * cb] == disk[mark];
  }

  /**
   The straight read sees exactly the chain's bytes, whatever the disk holds, if and only if the
   clusters the file touches lie one after the other. So the manifest hash and the release copy are
   right for every unfragmented file and wrong, on some disk, for every fragmented one.
   */
  lemma StraightIffConsecutive(partOffset: nat, bpb: FatBootSector, fds: nat, chain: seq<nat>, size: nat, n: nat)
    requires chain != [] && Addressable(partOffset, bpb, fds, chain) && ClusterBytes(bpb) > 0
    requires Readable(partOffset, bpb, fds, chain, n)
    requires ClusterToByteOffset(partOffset, bpb, fds, chain[0]) + size <= n
    requires 0 < size <= |chain| * ClusterBytes(bpb)
    ensures (forall disk: seq<byte> :: |disk| == n ==>
              DataFrom(disk, partOffset, bpb, fds, chain, size)
              == Straight(disk, ClusterToByteOffset(partOffset, bpb, fds, chain[0]), size))
            <==> Consecutive(chain, Min(Used(size, ClusterBytes(bpb)), |chain|))
  {
    var o, cb := ClusterToByteOffset(partOffset, bpb, fds, chain[0]), ClusterBytes(bpb);
    var used := Min(Used(size, cb), |chain|);
    if Consecutive(chain, used) {
      forall disk: seq<byte> | |disk| == n
        ensures DataFrom(disk, partOffset, bpb, fds, chain, size) == Straight(disk, o, size)
      {
        ConsecutiveData(disk, partOffset, bpb, fds, chain, size);
      }
    } else {
      var i :| 0 <= i < used && chain[i] != chain[0] + i;
      UsedBound(size, cb, i);
      var disk := FragmentedDiffers(partOffset, bpb, fds, chain, size, n, i);
    }
  }
}
