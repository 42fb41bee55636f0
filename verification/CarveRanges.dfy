/** The unallocated-range builder of src/scan/mod.rs, and carving kept off the partitions. */
module CarveRanges {
  import opened Bytes
  import opened Partitions
  import opened FreeSpace
  import opened Carving

  function StartByte(p: Partition, sec: nat): nat {
    SatMul(p.startLba, sec)
  }

  function EndByte(p: Partition, sec: nat): nat {
    SatMul(SatAdd(p.endLba, 1), sec)
  }

  // The free range from `lo` to `hi`, if there is any.
  function RangeBetween(lo: nat, hi: nat): seq<ByteRange> {
    if hi > lo then [(lo, hi - lo)] else []
  }

  function Between(sorted: seq<Partition>, sec: nat): seq<ByteRange> {
    if |sorted| < 2 then []
    else RangeBetween(EndByte(sorted[0], sec), StartByte(sorted[1], sec)) + Between(sorted[1..], sec)
  }

  lemma SortLength(ps: seq<Partition>)
    ensures |SortByStart(ps)| == |ps|
  {
    SortElements(ps);
    assert |SortByStart(ps)| == |multiset(SortByStart(ps))| == |multiset(ps)|;
  }

  function SortedRanges(sorted: seq<Partition>, sec: nat, totalBytes: nat): seq<ByteRange>
    requires sorted != []
  {
    RangeBetween(2048 * sec, StartByte(sorted[0], sec))
    + Between(sorted, sec)
    + RangeBetween(EndByte(sorted[|sorted| - 1], sec), totalBytes)
  }

  function RangesOf(ps: seq<Partition>, sec: nat, totalBytes: nat): seq<ByteRange>
    requires ps != []
  {
    SortLength(ps);
    SortedRanges(SortByStart(ps), sec, totalBytes)
  }

  lemma BetweenStep(sorted: seq<Partition>, i: nat, sec: nat)
    requires i < |sorted|
    ensures i + 1 == |sorted| ==> Between(sorted[i..], sec) == []
    ensures i + 1 < |sorted| ==>
              Between(sorted[i..], sec)
              == RangeBetween(EndByte(sorted[i], sec), StartByte(sorted[i + 1], sec)) + Between(sorted[i + 1..], sec)
  {
    assert i + 1 < |sorted| ==> sorted[i..][1..] == sorted[i + 1..];
  }

  method UnallocatedRanges(ps: seq<Partition>, sec: nat, totalBytes: nat) returns (ranges: seq<ByteRange>)
    requires ps != []
    ensures ranges == RangesOf(ps, sec, totalBytes)
  {
    SortLength(ps);
    var sorted := SortByStart(ps);
    hide SortByStart, StartByte, EndByte, Between;
    ranges := [];
    var firstStart: nat := StartByte(sorted[0], sec);
    var prefix := 2048 * sec;
    if firstStart > prefix {
      ranges := ranges + [(prefix, firstStart - prefix)];
    }
    ghost var first := ranges;
    assert first == RangeBetween(prefix, firstStart);
    for i := 0 to |sorted| - 1
      invariant ranges + Between(sorted[i..], sec) == first + Between(sorted, sec)
    {
      var end: nat := EndByte(sorted[i], sec);
      var next: nat := StartByte(sorted[i + 1], sec);
      BetweenStep(sorted, i, sec);
      ConcatAssociative(ranges, RangeBetween(end, next), Between(sorted[i + 1..], sec));
      if next > end {
        ranges := ranges + [(end, next - end)];
      }
    }
    BetweenStep(sorted, |sorted| - 1, sec);
    var lastEnd: nat := EndByte(sorted[|sorted| - 1], sec);
    if totalBytes > lastEnd {
      ranges := ranges + [(lastEnd, totalBytes - lastEnd)];
    }
  }

  /* When the ranges miss the partitions */

  predicate ValidPartitions(ps: seq<Partition>) {
    forall k | 0 <= k < |ps| :: ps[k].startLba <= ps[k].endLba
  }

  // The bytes from `lo` to `hi` miss the partition.
  predicate Misses(lo: nat, hi: nat, p: Partition, sec: nat) {
    hi <= StartByte(p, sec) || EndByte(p, sec) <= lo
  }

  predicate Avoids(r: ByteRange, ps: seq<Partition>, sec: nat) {
    forall k | 0 <= k < |ps| :: Misses(r.0, r.0 + r.1, ps[k], sec)
  }

  // Where the free range after partition `i` ends, if there is one.
  function GapEnd(sorted: seq<Partition>, i: nat, sec: nat, totalBytes: nat): nat
    requires i < |sorted|
  {
    if i + 1 < |sorted| then StartByte(sorted[i + 1], sec) else totalBytes
  }

  predicate GapAfter(sorted: seq<Partition>, i: nat, sec: nat, totalBytes: nat)
    requires i < |sorted|
  {
    EndByte(sorted[i], sec) < GapEnd(sorted, i, sec, totalBytes)
  }

  // No partition reaches past a later one after which at least `least` bytes are free before byte `reach`.
  ghost predicate NoOverhang(sorted: seq<Partition>, sec: nat, totalBytes: nat, least: nat, reach: nat) {
    forall i, j | 0 <= j < i < |sorted|
                  && EndByte(sorted[i], sec) + least <= Min(GapEnd(sorted, i, sec, totalBytes), reach) ::
      EndByte(sorted[j], sec) <= EndByte(sorted[i], sec)
  }

  function GapRange(sorted: seq<Partition>, i: nat, sec: nat, totalBytes: nat): ByteRange
    requires i < |sorted| && GapAfter(sorted, i, sec, totalBytes)
  {
    (EndByte(sorted[i], sec), GapEnd(sorted, i, sec, totalBytes) - EndByte(sorted[i], sec))
  }

  // `r` is the free range after one of the partitions from `lo` to `hi`.
  ghost predicate IsGap(sorted: seq<Partition>, lo: nat, hi: nat, sec: nat, totalBytes: nat, r: ByteRange)
    requires hi <= |sorted|
  {
    exists i :: lo <= i < hi && FollowsPartition(sorted, i, sec, totalBytes, r)
  }

  predicate FollowsPartition(sorted: seq<Partition>, i: nat, sec: nat, totalBytes: nat, r: ByteRange)
    requires i < |sorted|
  {
    GapAfter(sorted, i, sec, totalBytes) && r == GapRange(sorted, i, sec, totalBytes)
  }

  lemma FollowsIsMember(sorted: seq<Partition>, i: nat, sec: nat, totalBytes: nat, r: ByteRange)
    requires i < |sorted|
    ensures FollowsPartition(sorted, i, sec, totalBytes, r)
            <==> r in RangeBetween(EndByte(sorted[i], sec), GapEnd(sorted, i, sec, totalBytes))
  {
    hide StartByte, EndByte;
  }

  lemma {:induction false} BetweenMembers(sorted: seq<Partition>, k: nat, sec: nat, totalBytes: nat, r: ByteRange)
    requires k < |sorted|
    ensures r in Between(sorted[k..], sec) <==> IsGap(sorted, k, |sorted| - 1, sec, totalBytes, r)
    decreases |sorted| - k
  {
    hide StartByte, EndByte, Between, RangeBetween, FollowsPartition;
    BetweenStep(sorted, k, sec);
    if k + 1 < |sorted| {
      FollowsIsMember(sorted, k, sec, totalBytes, r);
      BetweenMembers(sorted, k + 1, sec, totalBytes, r);
    }
  }

  // The ranges are the one before the first partition and one for each gap.
  lemma RangeMembers(sorted: seq<Partition>, sec: nat, totalBytes: nat, r: ByteRange)
    requires sorted != []
    ensures r in SortedRanges(sorted, sec, totalBytes) <==>
              r in RangeBetween(2048 * sec, StartByte(sorted[0], sec)) || IsGap(sorted, 0, |sorted|, sec, totalBytes, r)
  {
    hide StartByte, EndByte, Between, RangeBetween, FollowsPartition;
    var n := |sorted| - 1;
    BetweenMembers(sorted, 0, sec, totalBytes, r);
    assert sorted[0..] == sorted;
    FollowsIsMember(sorted, n, sec, totalBytes, r);
  }

  lemma SatMulMonotone(a: nat, b: nat, sec: nat)
    requires a <= b
    ensures SatMul(a, sec) <= SatMul(b, sec)
  {
    assert a * sec <= b * sec;
  }

  // In order of their first byte, and none of negative length.
  ghost predicate InOrder(sorted: seq<Partition>, sec: nat) {
    && (forall k | 0 <= k < |sorted| :: StartByte(sorted[k], sec) <= EndByte(sorted[k], sec))
    && forall i, j | 0 <= i < j < |sorted| :: StartByte(sorted[i], sec) <= StartByte(sorted[j], sec)
  }

  lemma SortedInOrder(sorted: seq<Partition>, sec: nat)
    requires Sorted(sorted) && ValidPartitions(sorted)
    ensures InOrder(sorted, sec)
  {
    forall k | 0 <= k < |sorted|
      ensures StartByte(sorted[k], sec) <= EndByte(sorted[k], sec)
    {
      if sorted[k].startLba <= U64_MAX {
        SatMulMonotone(sorted[k].startLba, SatAdd(sorted[k].endLba, 1), sec);
      } else if sec > 0 {
        assert U64_MAX * sec >= U64_MAX * 1;
      }
    }
    forall i, j | 0 <= i < j < |sorted|
      ensures StartByte(sorted[i], sec) <= StartByte(sorted[j], sec)
    {
      SatMulMonotone(sorted[i].startLba, sorted[j].startLba, sec);
    }
  }

  // The range after partition `i` misses all partitions just when none before `i` reaches past it.
  lemma GapAvoidsIff(sorted: seq<Partition>, i: nat, sec: nat, totalBytes: nat)
    requires InOrder(sorted, sec) && i < |sorted| && GapAfter(sorted, i, sec, totalBytes)
    ensures Avoids(GapRange(sorted, i, sec, totalBytes), sorted, sec)
            <==> forall j | 0 <= j < i :: EndByte(sorted[j], sec) <= EndByte(sorted[i], sec)
  {
    hide StartByte, EndByte;
    var r := GapRange(sorted, i, sec, totalBytes);
    forall j | 0 <= j < |sorted|
      ensures Misses(r.0, r.0 + r.1, sorted[j], sec) <==> i <= j || EndByte(sorted[j], sec) <= EndByte(sorted[i], sec)
    {
      if j < i {
        assert StartByte(sorted[j], sec) <= StartByte(sorted[i], sec) <= EndByte(sorted[i], sec);
      } else if j > i + 1 {
        assert StartByte(sorted[i + 1], sec) <= StartByte(sorted[j], sec);
      }
    }
  }

  lemma PrefixAvoids(sorted: seq<Partition>, sec: nat, r: ByteRange)
    requires InOrder(sorted, sec) && sorted != [] && r in RangeBetween(2048 * sec, StartByte(sorted[0], sec))
    ensures Avoids(r, sorted, sec)
  {
    hide StartByte, EndByte;
  }

  // The same for all ranges with at least `least` bytes before byte `reach`.
  lemma ReachableRangesAvoidIff(sorted: seq<Partition>, sec: nat, totalBytes: nat, least: nat, reach: nat)
    requires sorted != [] && InOrder(sorted, sec) && least > 0
    ensures (forall r | r in SortedRanges(sorted, sec, totalBytes) && Reachable(r, least, reach) ::
               Avoids(r, sorted, sec))
            <==> NoOverhang(sorted, sec, totalBytes, least, reach)
  {
    hide StartByte, EndByte, Avoids, SortedRanges, InOrder, RangeBetween;
    forall i | 0 <= i < |sorted| && GapAfter(sorted, i, sec, totalBytes)
      ensures GapRange(sorted, i, sec, totalBytes) in SortedRanges(sorted, sec, totalBytes)
      ensures Avoids(GapRange(sorted, i, sec, totalBytes), sorted, sec)
              <==> forall j | 0 <= j < i :: EndByte(sorted[j], sec) <= EndByte(sorted[i], sec)
    {
      assert FollowsPartition(sorted, i, sec, totalBytes, GapRange(sorted, i, sec, totalBytes));
      RangeMembers(sorted, sec, totalBytes, GapRange(sorted, i, sec, totalBytes));
      GapAvoidsIff(sorted, i, sec, totalBytes);
    }
    if NoOverhang(sorted, sec, totalBytes, least, reach) {
      forall r | r in SortedRanges(sorted, sec, totalBytes) && Reachable(r, least, reach)
        ensures Avoids(r, sorted, sec)
      {
        RangeMembers(sorted, sec, totalBytes, r);
        if r in RangeBetween(2048 * sec, StartByte(sorted[0], sec)) {
          PrefixAvoids(sorted, sec, r);
        }
      }
    }
  }

  // Free ranges never overlap each other, even when partitions do.
  lemma SortedRangesIncreasing(sorted: seq<Partition>, sec: nat, totalBytes: nat)
    requires sorted != [] && InOrder(sorted, sec)
    ensures Increasing(SortedRanges(sorted, sec, totalBytes))
  {
    hide StartByte, EndByte, Between;
    assert sorted[0..] == sorted;
    BetweenIncreasing(sorted, 0, sec);
  }

  ghost predicate Bounded(ranges: seq<ByteRange>, lo: nat, hi: nat) {
    forall k | 0 <= k < |ranges| :: lo <= ranges[k].0 && ranges[k].0 + ranges[k].1 <= hi
  }

  lemma {:induction false} BetweenIncreasing(sorted: seq<Partition>, k: nat, sec: nat)
    requires InOrder(sorted, sec) && k < |sorted|
    ensures var between := Between(sorted[k..], sec);
            Increasing(between) && Bounded(between, StartByte(sorted[k], sec), StartByte(sorted[|sorted| - 1], sec))
    decreases |sorted| - k
  {
    hide StartByte, EndByte, Between;
    BetweenStep(sorted, k, sec);
    if k + 1 < |sorted| {
      BetweenIncreasing(sorted, k + 1, sec);
    }
  }

  /* Back to the partitions in any order */

  lemma AvoidsMultiset(r: ByteRange, a: seq<Partition>, b: seq<Partition>, sec: nat)
    requires multiset(a) == multiset(b) && Avoids(r, a, sec)
    ensures Avoids(r, b, sec)
  {
    forall k | 0 <= k < |b|
      ensures Misses(r.0, r.0 + r.1, b[k], sec)
    {
      assert b[k] in multiset(a);
      var j :| 0 <= j < |a| && a[j] == b[k];
    }
  }

  lemma ValidMultiset(a: seq<Partition>, b: seq<Partition>)
    requires multiset(a) == multiset(b) && ValidPartitions(a)
    ensures ValidPartitions(b)
  {
    forall k | 0 <= k < |b|
      ensures b[k].startLba <= b[k].endLba
    {
      assert b[k] in multiset(a);
      var j :| 0 <= j < |a| && a[j] == b[k];
    }
  }

  lemma SortInOrder(ps: seq<Partition>, sec: nat)
    requires ValidPartitions(ps)
    ensures InOrder(SortByStart(ps), sec)
  {
    hide SortByStart, Sorted, InOrder, ValidPartitions;
    SortSorted(ps);
    SortElements(ps);
    ValidMultiset(ps, SortByStart(ps));
    SortedInOrder(SortByStart(ps), sec);
  }

  /**
   The ranges built from valid partitions in any order increase. Those with at least `least` bytes before
   byte `reach` miss every partition if and only if, in the order of their first sectors, no partition
   reaches past a later one that such a range follows.
   */
  lemma RangesAvoidIff(ps: seq<Partition>, sec: nat, totalBytes: nat, least: nat, reach: nat)
    requires ps != [] && ValidPartitions(ps) && least > 0
    ensures var ranges := RangesOf(ps, sec, totalBytes);
            && Increasing(ranges)
            && ((forall r | r in ranges && Reachable(r, least, reach) :: Avoids(r, ps, sec))
                <==> NoOverhang(SortByStart(ps), sec, totalBytes, least, reach))
  {
    hide SortByStart, Avoids, NoOverhang, SortedRanges, InOrder, Increasing, ValidPartitions, Reachable;
    var sorted := SortByStart(ps);
    SortLength(ps);
    SortElements(ps);
    SortInOrder(ps, sec);
    SortedRangesIncreasing(sorted, sec, totalBytes);
    ReachableRangesAvoidIff(sorted, sec, totalBytes, least, reach);
    forall r: ByteRange
      ensures Avoids(r, ps, sec) <==> Avoids(r, sorted, sec)
    {
      if Avoids(r, ps, sec) {
        AvoidsMultiset(r, ps, sorted, sec);
      }
      if Avoids(r, sorted, sec) {
        AvoidsMultiset(r, sorted, ps, sec);
      }
    }
  }

  /** Disjoint partitions never overhang, so their free ranges miss them all. */
  lemma DisjointNeverOverhangs(ps: seq<Partition>, sec: nat, totalBytes: nat, least: nat, reach: nat)
    requires ValidPartitions(ps) && Disjoint(ps)
    ensures NoOverhang(SortByStart(ps), sec, totalBytes, least, reach)
  {
    var sorted := SortByStart(ps);
    SortSorted(ps);
    SortElements(ps);
    SortDisjoint(ps);
    ValidMultiset(ps, sorted);
    hide SortByStart;
    forall i, j | 0 <= j < i < |sorted|
      ensures EndByte(sorted[j], sec) <= EndByte(sorted[i], sec)
    {
      assert sorted[j].endLba < sorted[i].startLba <= sorted[i].endLba;
      SatMulMonotone(SatAdd(sorted[j].endLba, 1), SatAdd(sorted[i].endLba, 1), sec);
    }
  }

  /** Built from valid, pairwise disjoint partitions in any order, the ranges increase and miss every partition. */
  lemma RangesAvoidPartitions(ps: seq<Partition>, sec: nat, totalBytes: nat)
    requires ps != [] && ValidPartitions(ps) && Disjoint(ps)
    ensures var ranges := RangesOf(ps, sec, totalBytes);
            Increasing(ranges) && forall k | 0 <= k < |ranges| :: Avoids(ranges[k], ps, sec)
  {
    hide SortByStart, Avoids, NoOverhang, RangesOf, Increasing, ValidPartitions, Disjoint;
    RangesNonEmpty(ps, sec, totalBytes);
    var ranges := RangesOf(ps, sec, totalBytes);
    RangesAvoidIff(ps, sec, totalBytes, 1, 0);
    forall k | 0 <= k < |ranges|
      ensures Avoids(ranges[k], ps, sec)
    {
      var reach := ranges[k].0 + ranges[k].1;
      DisjointNeverOverhangs(ps, sec, totalBytes, 1, reach);
      RangesAvoidIff(ps, sec, totalBytes, 1, reach);
      assert ranges[k] in ranges;
    }
  }

  lemma RangesNonEmpty(ps: seq<Partition>, sec: nat, totalBytes: nat)
    requires ps != []
    ensures forall r | r in RangesOf(ps, sec, totalBytes) :: r.1 > 0
  {
    hide SortByStart, StartByte, EndByte, Between;
    SortLength(ps);
    var sorted := SortByStart(ps);
    assert sorted[0..] == sorted;
    BetweenNonEmpty(sorted, 0, sec);
  }

  lemma {:induction false} BetweenNonEmpty(sorted: seq<Partition>, k: nat, sec: nat)
    requires k < |sorted|
    ensures forall r | r in Between(sorted[k..], sec) :: r.1 > 0
    decreases |sorted| - k
  {
    hide StartByte, EndByte, Between;
    BetweenStep(sorted, k, sec);
    if k + 1 < |sorted| {
      BetweenNonEmpty(sorted, k + 1, sec);
    }
  }

  lemma {:induction false} BetweenBounded(sorted: seq<Partition>, sec: nat, limit: nat)
    requires forall k | 0 <= k < |sorted| :: StartByte(sorted[k], sec) < limit
    ensures forall k | 0 <= k < |Between(sorted, sec)| :: Between(sorted, sec)[k].0 + Between(sorted, sec)[k].1 < limit
    decreases |sorted|
  {
    if |sorted| >= 2 {
      assert forall k | 0 <= k < |sorted[1..]| :: sorted[1..][k] == sorted[k + 1];
      BetweenBounded(sorted[1..], sec, limit);
    }
  }

  lemma RangesBounded(ps: seq<Partition>, sec: nat, totalBytes: nat)
    requires ps != [] && totalBytes < OFFSET_LIMIT
    requires forall k | 0 <= k < |ps| :: StartByte(ps[k], sec) < OFFSET_LIMIT
    ensures var ranges := RangesOf(ps, sec, totalBytes);
            forall k | 0 <= k < |ranges| :: ranges[k].0 + ranges[k].1 < OFFSET_LIMIT
  {
    hide SortByStart, StartByte, EndByte, Between;
    var sorted := SortByStart(ps);
    SortElements(ps);
    SortLength(ps);
    forall k | 0 <= k < |sorted|
      ensures StartByte(sorted[k], sec) < OFFSET_LIMIT
    {
      assert sorted[k] in multiset(ps);
      var j :| 0 <= j < |ps| && ps[j] == sorted[k];
    }
    BetweenBounded(sorted, sec, OFFSET_LIMIT);
  }

  // A nested partition that starts last leaves the rest of the outer one in the last range.
  lemma NestedPartitionIsCarved()
    ensures var outer := Partition(1, 2048, 9999, 7952, None, Some(0x07), false, None);
            var inner := Partition(2, 3000, 3999, 1000, None, Some(0x07), false, None);
            var ps := [outer, inner];
            && !NoOverhang(SortByStart(ps), 512, 512 * 20000, 16, 512 * 20000)
            && exists r | r in RangesOf(ps, 512, 512 * 20000) :: !Avoids(r, ps, 512)
  {
    var outer := Partition(1, 2048, 9999, 7952, None, Some(0x07), false, None);
    var inner := Partition(2, 3000, 3999, 1000, None, Some(0x07), false, None);
    var ps := [outer, inner];
    assert SortByStart(ps[1..]) == [inner] by {
      assert ps[1..][1..] == [];
    }
    assert SortByStart(ps) == ps;
    assert EndByte(ps[0], 512) > EndByte(ps[1], 512) && GapEnd(ps, 1, 512, 512 * 20000) == 512 * 20000;
    RangesAvoidIff(ps, 512, 512 * 20000, 16, 512 * 20000);
  }
}
