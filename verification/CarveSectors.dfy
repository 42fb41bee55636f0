/** Carving in terms of sectors: which bytes the free ranges hold, and which partitions carved files touch. */
module CarveSectors {
  import opened Bytes
  import opened Partitions
  import opened FreeSpace
  import opened Carving
  import opened CarveRanges
  import opened CarveSafety

  // The byte lies in one of the partition's sectors.
  predicate HoldsByte(p: Partition, b: nat, sec: nat)
    requires sec > 0
  {
    p.startLba <= b / sec <= p.endLba
  }

  predicate Held(ps: seq<Partition>, b: nat, sec: nat)
    requires sec > 0
  {
    exists k | 0 <= k < |ps| :: HoldsByte(ps[k], b, sec)
  }

  // Where a sector begins.
  function FirstByte(lba: nat, sec: nat): nat {
    lba * sec
  }

  // The offset of no sector saturates.
  predicate ExactOffset(p: Partition, sec: nat) {
    FirstByte(p.startLba, sec) <= U64_MAX && FirstByte(p.endLba + 1, sec) <= U64_MAX
  }

  predicate ExactOffsets(ps: seq<Partition>, sec: nat) {
    forall k | 0 <= k < |ps| :: ExactOffset(ps[k], sec)
  }

  lemma InSectors(b: nat, lba: nat, sec: nat)
    requires sec > 0
    ensures lba <= b / sec <==> lba * sec <= b
    ensures b / sec <= lba <==> b < (lba + 1) * sec
  {
    var q := b / sec;
    assert q * sec <= b < q * sec + sec;
    if lba <= q {
      SectorsMonotone(lba, q, sec);
    } else {
      SectorsMonotone(q + 1, lba, sec);
    }
    if q <= lba {
      SectorsMonotone(q, lba, sec);
    } else {
      SectorsMonotone(lba + 1, q, sec);
    }
  }

  lemma SectorsMonotone(a: nat, b: nat, sec: nat)
    requires a <= b
    ensures a * sec <= b * sec && (a + 1) * sec == a * sec + sec
  {
  }

  lemma ExactBytes(p: Partition, sec: nat)
    requires sec > 0 && ExactOffset(p, sec)
    ensures StartByte(p, sec) == FirstByte(p.startLba, sec) && EndByte(p, sec) == FirstByte(p.endLba + 1, sec)
  {
    AtLeast(p.endLba + 1, sec);
  }

  lemma AtLeast(a: nat, sec: nat)
    requires sec > 0
    ensures a <= a * sec
  {
  }

  lemma HeldIff(p: Partition, b: nat, sec: nat)
    requires sec > 0 && ExactOffset(p, sec)
    ensures HoldsByte(p, b, sec) <==> StartByte(p, sec) <= b < EndByte(p, sec)
  {
    hide StartByte, EndByte;
    ExactBytes(p, sec);
    InSectors(b, p.startLba, sec);
    InSectors(b, p.endLba, sec);
  }

  /* The free ranges hold every byte that no partition holds */

  // Some partition starts at or before `b`, or none does.
  lemma {:induction false} LastStart(sorted: seq<Partition>, b: nat, sec: nat, n: nat) returns (i: nat)
    requires n <= |sorted|
    ensures i <= n && (i > 0 ==> StartByte(sorted[i - 1], sec) <= b)
    ensures forall k | i <= k < n :: b < StartByte(sorted[k], sec)
  {
    hide StartByte;
    if n == 0 || StartByte(sorted[n - 1], sec) <= b {
      i := n;
    } else {
      i := LastStart(sorted, b, sec, n - 1);
    }
  }

  predicate InRange(r: ByteRange, b: nat) {
    r.0 <= b < r.0 + r.1
  }

  // The byte stands behind the reserved first 2048 sectors, or behind some partition.
  predicate Open(ps: seq<Partition>, b: nat, sec: nat)
    requires sec > 0
  {
    b >= 2048 * sec || exists k | 0 <= k < |ps| :: ps[k].endLba < b / sec
  }

  lemma SortedCovered(sorted: seq<Partition>, sec: nat, size: nat, b: nat)
    requires sec > 0 && sorted != [] && ExactOffsets(sorted, sec) && ValidPartitions(sorted)
    requires !Held(sorted, b, sec) && Open(sorted, b, sec) && b < size
    ensures exists r :: r in SortedRanges(sorted, sec, size) && InRange(r, b)
  {
    hide StartByte, EndByte, SortedRanges, HoldsByte, ExactOffset;
    var i := LastStart(sorted, b, sec, |sorted|);
    if i == 0 {
      forall k | 0 <= k < |sorted|
        ensures !(sorted[k].endLba < b / sec)
      {
        ExactBytes(sorted[k], sec);
        InSectors(b, sorted[k].startLba, sec);
      }
      var r := (2048 * sec, StartByte(sorted[0], sec) - 2048 * sec);
      RangeMembers(sorted, sec, size, r);
      assert r in RangeBetween(2048 * sec, StartByte(sorted[0], sec));
      assert r in SortedRanges(sorted, sec, size) && InRange(r, b);
    } else {
      HeldIff(sorted[i - 1], b, sec);
      assert GapAfter(sorted, i - 1, sec, size)
             && FollowsPartition(sorted, i - 1, sec, size, GapRange(sorted, i - 1, sec, size));
      RangeMembers(sorted, sec, size, GapRange(sorted, i - 1, sec, size));
      assert InRange(GapRange(sorted, i - 1, sec, size), b);
    }
  }

  lemma SortedOpen(sorted: seq<Partition>, sec: nat, size: nat, r: ByteRange, b: nat)
    requires sec > 0 && sorted != [] && ExactOffsets(sorted, sec) && r in SortedRanges(sorted, sec, size)
             && InRange(r, b)
    ensures Open(sorted, b, sec)
  {
    hide StartByte, EndByte, SortedRanges, ExactOffset;
    RangeMembers(sorted, sec, size, r);
    if r !in RangeBetween(2048 * sec, StartByte(sorted[0], sec)) {
      var i :| 0 <= i < |sorted| && FollowsPartition(sorted, i, sec, size, r);
      ExactBytes(sorted[i], sec);
      InSectors(b, sorted[i].endLba, sec);
    }
  }

  lemma HeldMultiset(a: seq<Partition>, c: seq<Partition>, b: nat, sec: nat)
    requires sec > 0 && multiset(a) == multiset(c) && Held(a, b, sec)
    ensures Held(c, b, sec)
  {
    var k :| 0 <= k < |a| && HoldsByte(a[k], b, sec);
    assert a[k] in multiset(c);
    var j :| 0 <= j < |c| && c[j] == a[k];
    assert HoldsByte(c[j], b, sec);
  }

  lemma ExactMultiset(a: seq<Partition>, c: seq<Partition>, sec: nat)
    requires multiset(a) == multiset(c) && ExactOffsets(a, sec)
    ensures ExactOffsets(c, sec)
  {
    forall k | 0 <= k < |c|
      ensures ExactOffset(c[k], sec)
    {
      assert c[k] in multiset(a);
      var j :| 0 <= j < |a| && a[j] == c[k];
    }
  }

  lemma OpenMultiset(a: seq<Partition>, c: seq<Partition>, b: nat, sec: nat)
    requires sec > 0 && multiset(a) == multiset(c) && Open(a, b, sec)
    ensures Open(c, b, sec)
  {
    if b < 2048 * sec {
      var k :| 0 <= k < |a| && a[k].endLba < b / sec;
      assert a[k] in multiset(c);
      var j :| 0 <= j < |c| && c[j] == a[k];
    }
  }

  /**
   However valid partitions overlap, every byte of the disk in whose sector none of them lies is in one of
   the free ranges, unless it stands in the first 2048 sectors and before every partition's end. There the
   ranges hold nothing.
   */
  lemma FreeBytesCovered(ps: seq<Partition>, sec: nat, size: nat, b: nat)
    requires sec > 0 && ps != [] && ExactOffsets(ps, sec) && ValidPartitions(ps) && b < size
    ensures !Held(ps, b, sec) && Open(ps, b, sec) ==> exists r :: r in RangesOf(ps, sec, size) && InRange(r, b)
    ensures !Open(ps, b, sec) ==> forall r | r in RangesOf(ps, sec, size) :: !InRange(r, b)
  {
    hide SortByStart, Held, Open, ExactOffsets, SortedRanges, ValidPartitions, InRange;
    var sorted := SortByStart(ps);
    SortElements(ps);
    SortLength(ps);
    ExactMultiset(ps, sorted, sec);
    ValidMultiset(ps, sorted);
    if Held(sorted, b, sec) {
      HeldMultiset(sorted, ps, b, sec);
    }
    if Open(ps, b, sec) {
      OpenMultiset(ps, sorted, b, sec);
      if !Held(ps, b, sec) {
        SortedCovered(sorted, sec, size, b);
      }
    } else {
      forall r | r in RangesOf(ps, sec, size)
        ensures !InRange(r, b)
      {
        if InRange(r, b) {
          SortedOpen(sorted, sec, size, r, b);
          OpenMultiset(sorted, ps, b, sec);
        }
      }
    }
  }

  /**
   For disjoint partitions the ranges hold, as far as the disk goes, exactly the free bytes behind all that is
   reserved.
   */
  lemma RangesAreFreeBytes(ps: seq<Partition>, sec: nat, size: nat, b: nat)
    requires sec > 0 && ps != [] && ExactOffsets(ps, sec) && ValidPartitions(ps) && Disjoint(ps) && b < size
    ensures (exists r :: r in RangesOf(ps, sec, size) && InRange(r, b)) <==> !Held(ps, b, sec) && Open(ps, b, sec)
  {
    hide RangesOf, ValidPartitions, Disjoint, Increasing, ExactOffset, HoldsByte, Open;
    RangesAvoidPartitions(ps, sec, size);
    FreeBytesCovered(ps, sec, size, b);
    forall r, k | r in RangesOf(ps, sec, size) && InRange(r, b) && 0 <= k < |ps|
      ensures !HoldsByte(ps[k], b, sec)
    {
      var t :| 0 <= t < |RangesOf(ps, sec, size)| && RangesOf(ps, sec, size)[t] == r;
      assert Avoids(r, ps, sec);
      HeldIff(ps[k], b, sec);
    }
  }

  /* Carved files touch a partition's sectors exactly when the layout overhangs */

  predicate FileHolds(f: CarvedFile, b: nat) {
    f.start <= b < f.start + Max(f.size, 1)
  }

  // No byte of a carved file lies in a sector of a partition.
  ghost predicate SectorsMissed(files: seq<CarvedFile>, ps: seq<Partition>, sec: nat)
    requires sec > 0
  {
    forall k, b: nat | 0 <= k < |files| && FileHolds(files[k], b) :: !Held(ps, b, sec)
  }

  // A stretch of bytes misses a partition just when none of them lies in its sectors.
  lemma MissesIff(lo: nat, hi: nat, p: Partition, sec: nat)
    requires sec > 0 && ExactOffset(p, sec) && lo < hi && p.startLba <= p.endLba
    ensures Misses(lo, hi, p, sec) <==> forall b: nat | lo <= b < hi :: !HoldsByte(p, b, sec)
  {
    hide StartByte, EndByte, HoldsByte;
    ExactBytes(p, sec);
    SectorsMonotone(p.startLba, p.endLba, sec);
    forall b: nat
      ensures HoldsByte(p, b, sec) <==> StartByte(p, sec) <= b < EndByte(p, sec)
    {
      HeldIff(p, b, sec);
    }
    var first := Max(lo, StartByte(p, sec));
    assert HoldsByte(p, first, sec) <==> first < EndByte(p, sec);
  }

  lemma FilesMissIff(files: seq<CarvedFile>, ps: seq<Partition>, sec: nat)
    requires sec > 0 && ExactOffsets(ps, sec) && ValidPartitions(ps)
    ensures FilesMiss(files, ps, sec) <==> SectorsMissed(files, ps, sec)
  {
    hide HoldsByte, ExactOffset, Misses;
    forall k, j | 0 <= k < |files| && 0 <= j < |ps|
      ensures Misses(files[k].start, files[k].start + Max(files[k].size, 1), ps[j], sec)
              <==> forall b: nat | FileHolds(files[k], b) :: !HoldsByte(ps[j], b, sec)
    {
      MissesIff(files[k].start, files[k].start + Max(files[k].size, 1), ps[j], sec);
    }
    if SectorsMissed(files, ps, sec) {
      forall k, j, b: nat | 0 <= k < |files| && 0 <= j < |ps| && FileHolds(files[k], b)
        ensures !HoldsByte(ps[j], b, sec)
      {
        assert !Held(ps, b, sec);
      }
    }
  }

  // Where the next partition starts, or the disk ends.
  function FreeUntil(sorted: seq<Partition>, i: nat, sec: nat, size: nat): nat
    requires i < |sorted|
  {
    if i + 1 < |sorted| then Min(FirstByte(sorted[i + 1].startLba, sec), size) else size
  }

  // In the order of their first sectors, no partition ends after a later one behind which sixteen bytes are free.
  ghost predicate NoSectorOverhang(sorted: seq<Partition>, sec: nat, size: nat) {
    forall i, j | 0 <= j < i < |sorted|
      && FirstByte(sorted[i].endLba + 1, sec) + 16 <= FreeUntil(sorted, i, sec, size) ::
      sorted[j].endLba <= sorted[i].endLba
  }

  lemma FirstBytesOrdered(a: nat, b: nat, sec: nat)
    requires sec > 0
    ensures FirstByte(a, sec) <= FirstByte(b, sec) <==> a <= b
  {
    if a <= b {
      SectorsMonotone(a, b, sec);
    } else {
      SectorsMonotone(b + 1, a, sec);
      SectorsMonotone(b, b, sec);
    }
  }

  lemma OverhangIff(ps: seq<Partition>, sec: nat, size: nat)
    requires sec > 0 && ExactOffsets(ps, sec)
    ensures NoOverhangOn(size, ps, sec) <==> NoSectorOverhang(SortByStart(ps), sec, size)
  {
    hide SortByStart, StartByte, EndByte, FirstByte;
    var sorted := SortByStart(ps);
    SortElements(ps);
    ExactMultiset(ps, sorted, sec);
    forall i | 0 <= i < |sorted|
      ensures StartByte(sorted[i], sec) == FirstByte(sorted[i].startLba, sec)
      ensures EndByte(sorted[i], sec) == FirstByte(sorted[i].endLba + 1, sec)
    {
      ExactBytes(sorted[i], sec);
    }
    forall i, j | 0 <= j < |sorted| && 0 <= i < |sorted|
      ensures EndByte(sorted[j], sec) <= EndByte(sorted[i], sec) <==> sorted[j].endLba <= sorted[i].endLba
    {
      FirstBytesOrdered(sorted[j].endLba + 1, sorted[i].endLba + 1, sec);
    }
  }

  /**
   On every disk whose offsets do not saturate: with any detector, quota and reads no byte of a carved file
   lies in a sector of a partition, if and only if no partition ends after a later one behind which at least
   sixteen bytes of the disk are free.
   */
  lemma SectorsSafeIff(disk: seq<byte>, ps: seq<Partition>, sec: nat)
    requires ps != [] && 0 < sec < U32_LIMIT && SmallDisk(|disk|, ps, sec) && ValidPartitions(ps)
             && ExactOffsets(ps, sec)
    ensures (forall device, quota, detect :: SectorsMissed(Carved(disk, device, ps, sec, quota, detect), ps, sec))
            <==> NoSectorOverhang(SortByStart(ps), sec, |disk|)
  {
    hide Carved, FilesMiss, SectorsMissed, NoOverhangOn, NoSectorOverhang, SmallDisk, ValidPartitions, ExactOffsets;
    CarvingSafeIff(disk, ps, sec);
    OverhangIff(ps, sec, |disk|);
    forall device, quota, detect
      ensures FilesMiss(Carved(disk, device, ps, sec, quota, detect), ps, sec)
              <==> SectorsMissed(Carved(disk, device, ps, sec, quota, detect), ps, sec)
    {
      FilesMissIff(Carved(disk, device, ps, sec, quota, detect), ps, sec);
    }
  }
}
