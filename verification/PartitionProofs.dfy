/** What partition parsing guarantees: exact spans, the GPT round trip, and damage detection. */
module PartitionProofs {
  import opened Bytes
  import opened Crc
  import opened Partitions

  /* Every parsed partition spans exactly the sectors it counts */

  // Only a partition of all 2^64 sectors has one more than the count can say.
  predicate ExactSpan(p: Partition) {
    p.totalSectors > 0 ==> p.startLba <= p.endLba && p.totalSectors == Min(p.endLba - p.startLba + 1, U64_MAX)
  }

  predicate ExactSpans(ps: seq<Partition>) {
    forall k | 0 <= k < |ps| :: ExactSpan(ps[k])
  }

  lemma FieldBound(b: seq<byte>, off: nat, n: nat)
    requires off + n <= |b|
    ensures Field(b, off, n) < Pow256(n)
  {
    LeBound(b[off..off + n]);
  }

  lemma PrimaryExact(entry: seq<byte>, i: nat)
    requires |entry| == 16
    ensures var p := PrimaryPartition(entry, i);
            ExactSpan(p) && p.startLba < U32_LIMIT && p.totalSectors < U32_LIMIT
  {
    FieldBound(entry, 8, 4);
    FieldBound(entry, 12, 4);
    Pow256Values();
  }

  predicate SmallMbr(ps: seq<Partition>) {
    forall k | 0 <= k < |ps| :: ps[k].startLba < U32_LIMIT
  }

  lemma {:induction false} PrimariesExact(sector: seq<byte>, i: nat)
    requires |sector| >= 512 && i <= 4
    ensures ExactSpans(PrimaryPartitions(sector, i)) && SmallMbr(PrimaryPartitions(sector, i))
    decreases 4 - i
  {
    if i < 4 {
      PrimaryExact(MbrEntry(sector, i), i);
      PrimariesExact(sector, i + 1);
    }
  }

  lemma LogicalExact(ebr: seq<byte>, lba: nat, index: nat)
    requires |ebr| == 512 && lba < 2 * U32_LIMIT
    ensures ExactSpans(LogicalPartition(ebr, lba, index))
  {
    var e := ebr[446..462];
    FieldBound(e, 8, 4);
    FieldBound(e, 12, 4);
    Pow256Values();
  }

  lemma NextSmall(ebr: seq<byte>, ext: Extended)
    requires |ebr| == 512 && ext.base < U32_LIMIT
    ensures NextEbr(ebr, ext).Some? ==> NextEbr(ebr, ext).value < 2 * U32_LIMIT
  {
    FieldBound(ebr[462..478], 8, 4);
    Pow256Values();
  }

  /**
   Following EBRs from anywhere, even round a cycle, adds at most 64 logical partitions, numbered
   consecutively, each used and each spanning exactly its sector count.
   */
  lemma {:induction false} EbrWalkSound(disk: seq<byte>, ss: nat, ext: Extended, lba: nat, visited: set<nat>,
                                        index: nat)
    requires ext.base < U32_LIMIT && lba < 2 * U32_LIMIT
    ensures var w := EbrWalk(disk, ss, ext, lba, visited, index);
            && |w| <= Max(0, 64 - |visited|)
            && ExactSpans(w)
            && forall k | 0 <= k < |w| :: w[k].index == index + k && w[k].totalSectors > 0
    decreases MAX_LOGICAL - |visited|
  {
    if |visited| < MAX_LOGICAL && lba !in visited {
      var read := ReadExact(disk, SatMul(lba, ss), 512);
      if read.Some? && BootSignature(read.value) {
        LogicalExact(read.value, lba, index);
        NextSmall(read.value, ext);
        var found := LogicalPartition(read.value, lba, index);
        var next := NextEbr(read.value, ext);
        if next.Some? {
          EbrWalkSound(disk, ss, ext, next.value, visited + {lba}, index + |found|);
        }
      }
    }
  }

  lemma {:induction false} EbrWalksExact(disk: seq<byte>, ss: nat, exts: seq<Extended>, index: nat)
    requires forall k | 0 <= k < |exts| :: exts[k].base < U32_LIMIT
    ensures ExactSpans(EbrWalks(disk, ss, exts, index))
    decreases |exts|
  {
    hide EbrWalk, ExactSpan;
    if exts != [] {
      EbrWalkSound(disk, ss, exts[0], exts[0].base, {}, index);
      EbrWalksExact(disk, ss, exts[1..], index + |EbrWalk(disk, ss, exts[0], exts[0].base, {}, index)|);
    }
  }

  lemma {:induction false} ExtendedSmall(ps: seq<Partition>)
    requires SmallMbr(ps)
    ensures forall k | 0 <= k < |ExtendedOf(ps)| :: ExtendedOf(ps)[k].base < U32_LIMIT
  {
    if ps != [] {
      ExtendedSmall(ps[1..]);
    }
  }

  lemma EntryExact(e: seq<byte>, i: nat, utf16: Utf16)
    requires |e| >= 128
    ensures ExactSpan(GptPartition(e, i, utf16))
  {
    hide Le, GuidText, NameUnits;
    FieldBound(e, 40, 8);
    Pow256Values();
  }

  lemma {:induction false} EntriesExact(entries: seq<byte>, size: nat, count: nat, i: nat, utf16: Utf16)
    requires size >= 128 && |entries| == count * size && i <= count
    ensures ExactSpans(EntryPartitions(entries, size, count, i, utf16))
    decreases count - i
  {
    hide Field, GptPartition, IsUnused, EntryAt, ExactSpan;
    if i < count {
      assert (i + 1) * size <= count * size;
      var e := EntryAt(entries, size, i);
      EntryExact(e, i, utf16);
      EntriesExact(entries, size, count, i + 1, utf16);
    }
  }

  lemma GptCopyExact(disk: seq<byte>, lba: nat, ss: nat, utf16: Utf16)
    ensures ExactSpans(GptCopyAt(disk, lba, ss, utf16).partitions)
  {
    var read := ReadExact(disk, SatMul(lba, ss), ss);
    if read.Some? && HeaderIntact(read.value) {
      var entries := EntryArray(disk, read.value, ss);
      if entries.Some? {
        EntriesExact(entries.value, EntrySizeOf(read.value), EntryCountOf(read.value), 0, utf16);
      }
    }
  }

  /**
   Whatever the table, a parsed partition that counts any sectors spans exactly that many, as far as 64 bits can say.
   */
  lemma ParsedSpansExact(disk: seq<byte>, totalBytes: nat, ss: nat, utf16: Utf16)
    requires DiskLayoutOf(disk, totalBytes, ss, utf16).Ok?
    ensures ExactSpans(DiskLayoutOf(disk, totalBytes, ss, utf16).value.partitions)
  {
    hide GptOf, LayoutOf, MbrOf, ExactSpans;
    MbrExact(disk, ss);
    GptExact(disk, totalBytes / ss, ss, utf16);
    LayoutExact(MbrOf(disk, ss).value, GptOf(disk, totalBytes / ss, ss, utf16), totalBytes / ss, ss);
  }

  lemma LayoutExact(mbr: MbrInfo, gpt: GptInfo, totalSectors: nat, ss: nat)
    requires ExactSpans(mbr.partitions) && ExactSpans(gpt.partitions)
    ensures ExactSpans(LayoutOf(mbr, gpt, totalSectors, ss).partitions)
  {
    hide ExactSpans;
    NoSpans();
  }

  lemma NoSpans()
    ensures ExactSpans([])
  {
  }

  lemma GptExact(disk: seq<byte>, totalSectors: nat, ss: nat, utf16: Utf16)
    ensures ExactSpans(GptOf(disk, totalSectors, ss, utf16).partitions)
  {
    hide GptCopyAt, ExactSpans, Differ;
    NoSpans();
    if totalSectors >= 3 {
      GptCopyExact(disk, 1, ss, utf16);
      GptCopyExact(disk, totalSectors - 1, ss, utf16);
    }
  }

  lemma MbrExact(disk: seq<byte>, ss: nat)
    ensures MbrOf(disk, ss).Ok? ==> ExactSpans(MbrOf(disk, ss).value.partitions)
  {
    var read := ReadExact(disk, 0, ss);
    if read.Some? && ss >= 512 && BootSignature(read.value) {
      var primary := PrimaryPartitions(read.value, 0);
      PrimariesExact(read.value, 0);
      ExtendedSmall(primary);
      EbrWalksExact(disk, ss, ExtendedOf(primary), 5);
    }
  }

  /* Damage to a GPT copy */

  // Two byte strings that differ, and only inside the four bytes from `at`.
  predicate BurstDiff(a: seq<byte>, b: seq<byte>, at: nat) {
    |a| == |b| && a != b && forall k | 0 <= k < |a| && !(at <= k < at + 4) :: a[k] == b[k]
  }

  lemma BurstChangesCrc(a: seq<byte>, b: seq<byte>, at: nat)
    requires BurstDiff(a, b, at)
    ensures Crc32(a) != Crc32(b)
  {
    hide Crc32;
    var lo := Min(at, |a|);
    var hi := Min(at + 4, |a|);
    var pre, post := a[..lo], a[hi..];
    assert pre == b[..lo] && post == b[hi..];
    assert a == pre + a[lo..hi] + post && b == pre + b[lo..hi] + post;
    BurstDetected(pre, a[lo..hi], b[lo..hi], post);
  }

  /** A burst of up to four damaged bytes anywhere in the entry array invalidates that copy. */
  lemma EntryDamageDetected(disk: seq<byte>, disk': seq<byte>, lba: nat, ss: nat, utf16: Utf16, at: nat)
    requires GptCopyAt(disk, lba, ss, utf16).valid
    requires ReadExact(disk, SatMul(lba, ss), ss) == ReadExact(disk', SatMul(lba, ss), ss)
    requires var h := ReadExact(disk, SatMul(lba, ss), ss).value;
             EntryArray(disk', h, ss).Some?
               && BurstDiff(EntryArray(disk, h, ss).value, EntryArray(disk', h, ss).value, at)
    ensures !GptCopyAt(disk', lba, ss, utf16).valid
  {
    var h := ReadExact(disk, SatMul(lba, ss), ss).value;
    BurstChangesCrc(EntryArray(disk, h, ss).value, EntryArray(disk', h, ss).value, at);
  }

  lemma ChecksumInputsDiffer(h: seq<byte>, h': seq<byte>, size: nat, at: nat)
    requires 92 <= size <= |h| && size <= |h'| && BurstDiff(h[..size], h'[..size], at) && h[12..20] == h'[12..20]
    ensures BurstDiff(ChecksumInput(h, size), ChecksumInput(h', size), at)
  {
    var c, c' := ChecksumInput(h, size), ChecksumInput(h', size);
    forall k | 0 <= k < size && !(16 <= k < 20)
      ensures c[k] == h[..size][k] && c'[k] == h'[..size][k]
    {
    }
    forall k | 12 <= k < 20
      ensures h[k] == h'[k]
    {
      assert h[12..20][k - 12] == h'[12..20][k - 12];
    }
    var d :| 0 <= d < size && h[..size][d] != h'[..size][d];
    assert c[d] != c'[d];
  }

  /** So does a burst in the header outside its length and checksum fields, whatever the entries now read. */
  lemma HeaderDamageDetected(disk: seq<byte>, disk': seq<byte>, lba: nat, ss: nat, utf16: Utf16, at: nat)
    requires GptCopyAt(disk, lba, ss, utf16).valid
    requires ReadExact(disk', SatMul(lba, ss), ss).Some?
    requires var h, h' := ReadExact(disk, SatMul(lba, ss), ss).value, ReadExact(disk', SatMul(lba, ss), ss).value;
             var size := Field(h, 12, 4);
             BurstDiff(h[..size], h'[..size], at) && h[12..20] == h'[12..20]
    ensures !GptCopyAt(disk', lba, ss, utf16).valid
  {
    hide Crc32, Le, ChecksumInput, BurstDiff, SatMul;
    var h, h' := ReadExact(disk, SatMul(lba, ss), ss).value, ReadExact(disk', SatMul(lba, ss), ss).value;
    var size := Field(h, 12, 4);
    assert h[12..16] == h[12..20][..4] && h[16..20] == h[12..20][4..];
    assert h'[12..16] == h'[12..20][..4] && h'[16..20] == h'[12..20][4..];
    ChecksumInputsDiffer(h, h', size, at);
    BurstChangesCrc(ChecksumInput(h, size), ChecksumInput(h', size), at);
  }

  /* Which headers and geometries are accepted */

  // The sector with its checksum field filled in for a header of `size` bytes.
  function Signed(h: seq<byte>, size: nat): (s: seq<byte>)
    requires 92 <= size <= |h|
    ensures |s| == |h|
  {
    Crc32Range(ChecksumInput(h, size));
    h[..16] + LeBytes(Crc32(ChecksumInput(h, size)), 4) + h[20..]
  }

  lemma SignedFields(h: seq<byte>, size: nat)
    requires 92 <= size <= |h| && Field(h, 12, 4) == size
    ensures var s := Signed(h, size);
            && s[0..8] == h[0..8] && Field(s, 12, 4) == size && ChecksumInput(s, size) == ChecksumInput(h, size)
            && Field(s, 16, 4) == Crc32(ChecksumInput(h, size))
  {
    hide Crc32, Le, LeBytes;
    Crc32Range(ChecksumInput(h, size));
    var crc: u32 := Crc32(ChecksumInput(h, size));
    var s := Signed(h, size);
    assert s[12..16] == h[12..16] && s[16..20] == LeBytes(crc, 4);
    assert s[..16] == h[..16] && s[20..size] == h[20..size];
    Pow256Values();
    LeRoundTrip(crc, 4);
  }

  /** A header of any size from 92 bytes to the whole sector can be signed: with its checksum filled in it is intact. */
  lemma SignedIsIntact(h: seq<byte>, size: nat)
    requires 92 <= size <= |h| && Field(h, 12, 4) == size
    ensures HeaderIntact(Signed(h, size)) <==> h[0..8] == [0x45, 0x46, 0x49, 0x20, 0x50, 0x41, 0x52, 0x54]
  {
    hide Crc32, Field, ChecksumInput, Signed;
    SignedFields(h, size);
  }

  /**
   Behind an intact header, a readable entry array with the right checksum is accepted if and only if its
   entries have at least 128 bytes and there are at most 1024.
   */
  lemma GeometryIff(disk: seq<byte>, lba: nat, ss: nat, utf16: Utf16, h: seq<byte>, count: nat, size: nat,
                    entries: seq<byte>)
    requires ReadExact(disk, SatMul(lba, ss), ss) == Some(h) && HeaderIntact(h) && |h| >= 92
    requires Field(h, 80, 4) == count && Field(h, 84, 4) == size && |entries| == count * size
    requires ReadExact(disk, SatMul(Field(h, 72, 8), ss), |entries|) == Some(entries)
             && Crc32(entries) == Field(h, 88, 4)
    ensures GptCopyAt(disk, lba, ss, utf16).valid <==> size >= 128 && count <= 1024
  {
    hide Crc32, Field, ReadExact, SatMul, HeaderIntact, EntryPartitions;
  }
}
