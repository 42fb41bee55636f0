/**
 Free space between partitions: the sort-and-sweep of src/egress/remnants.rs, its second copy in
 src/disk/anomalies.rs, and the overlap and bounds findings beside it.
 */
module FreeSpace {
  import opened Bytes
  import opened Partitions
  import opened PartitionProofs

  // The first and the last sector.
  type LbaSpan = (nat, nat)

  // The positions of two partitions.
  type IndexPair = (nat, nat)

  // A partition the sweep does not skip.
  predicate Usable(p: Partition) {
    p.startLba <= p.endLba && p.totalSectors != 0
  }

  /* Vec::sort_by_key: a stable sort */

  function Insert(p: Partition, sorted: seq<Partition>): seq<Partition> {
    if sorted == [] || p.startLba <= sorted[0].startLba then [p] + sorted
    else [sorted[0]] + Insert(p, sorted[1..])
  }

  function SortByStart(ps: seq<Partition>): seq<Partition> {
    if ps == [] then [] else Insert(ps[0], SortByStart(ps[1..]))
  }

  predicate Sorted(ps: seq<Partition>) {
    forall i, j | 0 <= i < j < |ps| :: ps[i].startLba <= ps[j].startLba
  }

  lemma {:induction false} InsertElements(p: Partition, sorted: seq<Partition>)
    ensures multiset(Insert(p, sorted)) == multiset{p} + multiset(sorted)
  {
    if !(sorted == [] || p.startLba <= sorted[0].startLba) {
      InsertElements(p, sorted[1..]);
      assert sorted == [sorted[0]] + sorted[1..];
    }
  }

  lemma {:induction false} SortElements(ps: seq<Partition>)
    ensures multiset(SortByStart(ps)) == multiset(ps)
  {
    if ps != [] {
      SortElements(ps[1..]);
      InsertElements(ps[0], SortByStart(ps[1..]));
      assert ps == [ps[0]] + ps[1..];
    }
  }

  lemma {:induction false} InsertSorted(p: Partition, sorted: seq<Partition>)
    requires Sorted(sorted)
    ensures Sorted(Insert(p, sorted))
  {
    if !(sorted == [] || p.startLba <= sorted[0].startLba) {
      var rest := Insert(p, sorted[1..]);
      InsertSorted(p, sorted[1..]);
      InsertElements(p, sorted[1..]);
      forall j | 0 <= j < |rest|
        ensures sorted[0].startLba <= rest[j].startLba
      {
        assert rest[j] in multiset(rest);
        assert rest[j] == p || rest[j] in sorted[1..];
      }
      SortedPrepend(sorted[0], rest);
    }
  }

  lemma SortedPrepend(p: Partition, rest: seq<Partition>)
    requires Sorted(rest) && forall j | 0 <= j < |rest| :: p.startLba <= rest[j].startLba
    ensures Sorted([p] + rest)
  {
  }

  lemma {:induction false} SortSorted(ps: seq<Partition>)
    ensures Sorted(SortByStart(ps))
  {
    if ps != [] {
      SortSorted(ps[1..]);
      InsertSorted(ps[0], SortByStart(ps[1..]));
    }
  }

  // The partitions that start at `lba`, in order.
  function StartingAt(ps: seq<Partition>, lba: nat): seq<Partition> {
    if ps == [] then [] else (if ps[0].startLba == lba then [ps[0]] else []) + StartingAt(ps[1..], lba)
  }

  lemma {:induction false} InsertStable(p: Partition, sorted: seq<Partition>, lba: nat)
    requires Sorted(sorted)
    ensures StartingAt(Insert(p, sorted), lba) == StartingAt([p] + sorted, lba)
  {
    assert ([p] + sorted)[1..] == sorted;
    if !(sorted == [] || p.startLba <= sorted[0].startLba) {
      var rest := Insert(p, sorted[1..]);
      InsertStable(p, sorted[1..], lba);
      assert ([p] + sorted[1..])[1..] == sorted[1..];
      assert ([sorted[0]] + rest)[1..] == rest;
    }
  }

  /** Partitions that start at the same sector keep their order. */
  lemma {:induction false} SortStable(ps: seq<Partition>, lba: nat)
    ensures StartingAt(SortByStart(ps), lba) == StartingAt(ps, lba)
  {
    if ps != [] {
      SortStable(ps[1..], lba);
      SortSorted(ps[1..]);
      InsertStable(ps[0], SortByStart(ps[1..]), lba);
      assert ([ps[0]] + SortByStart(ps[1..]))[1..] == SortByStart(ps[1..]);
    }
  }

  /* The sweep */

  // The sectors the layout leaves to partitions.
  function Window(layout: DiskLayout): LbaSpan {
    if layout.partitions != [] && (layout.tableType.Gpt? || layout.tableType.Hybrid?)
    then (34, SatSub(layout.totalSectors, 34))
    else (1, SatSub(layout.totalSectors, 1))
  }

  function Sweep(sorted: seq<Partition>, pos: nat, end: nat): seq<LbaSpan> {
    if sorted == [] then
      if pos <= end then [(pos, end)] else []
    else
      var p := sorted[0];
      if !Usable(p) then Sweep(sorted[1..], pos, end) else
        var gapEnd := Min(SatSub(p.startLba, 1), end);
        (if p.startLba > pos && gapEnd >= pos then [(pos, gapEnd)] else [])
        + Sweep(sorted[1..], Max(SatAdd(p.endLba, 1), pos), end)
  }

  function GapsOf(layout: DiskLayout): seq<LbaSpan> {
    var w := Window(layout);
    if layout.partitions == [] then (if layout.totalSectors > 1 then [w] else [])
    else Sweep(SortByStart(layout.partitions), w.0, w.1)
  }

  // One turn of the sweep at partition `k`: the gap before it, if there is one, and the rest.
  lemma SweepTurn(sorted: seq<Partition>, k: nat, pos: nat, end: nat)
    requires k < |sorted|
    ensures var p := sorted[k];
            var gapEnd := Min(SatSub(p.startLba, 1), end);
            var rest := Sweep(sorted[k + 1..], if Usable(p) then Max(SatAdd(p.endLba, 1), pos) else pos, end);
            Sweep(sorted[k..], pos, end) == if Usable(p) && p.startLba > pos && gapEnd >= pos
              then [(pos, gapEnd)] + rest else rest
  {
    assert sorted[k..][1..] == sorted[k + 1..];
  }

  lemma SweepEnds(sorted: seq<Partition>, pos: nat, end: nat)
    ensures sorted[0..] == sorted
    ensures Sweep(sorted[|sorted|..], pos, end) == if pos <= end then [(pos, end)] else []
  {
  }

  method FindUnallocatedGaps(layout: DiskLayout) returns (gaps: seq<LbaSpan>)
    ensures gaps == GapsOf(layout)
  {
    if |layout.partitions| == 0 {
      if layout.totalSectors > 1 {
        return [(1, SatSub(layout.totalSectors, 1))];
      }
      return [];
    }
    var sorted := SortByStart(layout.partitions);
    var isGpt := layout.tableType.Gpt? || layout.tableType.Hybrid?;
    var start: nat := if isGpt then 34 else 1;
    var end := if isGpt then SatSub(layout.totalSectors, 34) else SatSub(layout.totalSectors, 1);
    gaps := [];
    SweepEnds(sorted, start, end);
    hide SortByStart, SatAdd, SatSub, Usable, Sweep;
    var pos: nat := start;
    for k := 0 to |sorted|
      invariant gaps + Sweep(sorted[k..], pos, end) == Sweep(sorted, start, end)
    {
      var p := sorted[k];
      SweepTurn(sorted, k, pos, end);
      if !Usable(p) {
        continue;
      }
      if p.startLba > pos {
        var gapEnd: nat := Min(SatSub(p.startLba, 1), end);
        if gapEnd >= pos {
          ConcatAssociative(gaps, [(pos, gapEnd)], Sweep(sorted[k + 1..], Max(SatAdd(p.endLba, 1), pos), end));
          gaps := gaps + [(pos, gapEnd)];
        }
      }
      pos := Max(SatAdd(p.endLba, 1), pos);
    }
    SweepEnds(sorted, pos, end);
    if pos <= end {
      gaps := gaps + [(pos, end)];
    }
  }

  // The sweep inside `check_unallocated_data`, which gives up on an empty layout.
  method SweepForAnomalies(layout: DiskLayout) returns (gaps: seq<LbaSpan>)
    ensures gaps == if layout.partitions == [] then [] else GapsOf(layout)
  {
    if |layout.partitions| == 0 {
      return [];
    }
    var sorted := SortByStart(layout.partitions);
    var isGpt := layout.tableType.Gpt? || layout.tableType.Hybrid?;
    var start: nat := if isGpt then 34 else 1;
    var end := if isGpt then SatSub(layout.totalSectors, 34) else SatSub(layout.totalSectors, 1);
    gaps := [];
    SweepEnds(sorted, start, end);
    hide SortByStart, SatAdd, SatSub, Usable, Sweep;
    var pos: nat := start;
    for k := 0 to |sorted|
      invariant gaps + Sweep(sorted[k..], pos, end) == Sweep(sorted, start, end)
    {
      var p := sorted[k];
      SweepTurn(sorted, k, pos, end);
      if !Usable(p) {
        continue;
      }
      ghost var rest := Sweep(sorted[k + 1..], Max(SatAdd(p.endLba, 1), pos), end);
      if p.startLba > pos {
        var gapEnd: nat := Min(SatSub(p.startLba, 1), end);
        if pos <= gapEnd {
          ConcatAssociative(gaps, [(pos, gapEnd)], rest);
          gaps := gaps + [(pos, gapEnd)];
        }
      }
      pos := Max(pos, SatAdd(p.endLba, 1));
      assert rest == Sweep(sorted[k + 1..], pos, end);
    }
    SweepEnds(sorted, pos, end);
    if pos <= end {
      gaps := gaps + [(pos, end)];
    }
  }

  /* The gaps are the exact complement */

  ghost predicate Covers(gaps: seq<LbaSpan>, lba: nat) {
    exists k :: 0 <= k < |gaps| && gaps[k].0 <= lba <= gaps[k].1
  }

  ghost predicate Allocated(ps: seq<Partition>, lba: nat) {
    exists k :: 0 <= k < |ps| && Usable(ps[k]) && ps[k].startLba <= lba <= ps[k].endLba
  }

  // Non-empty spans in increasing order with at least one sector between neighbours.
  predicate Separated(gaps: seq<LbaSpan>) {
    && (forall k | 0 <= k < |gaps| :: gaps[k].0 <= gaps[k].1)
    && forall i, j | 0 <= i < j < |gaps| :: gaps[i].1 + 1 < gaps[j].0
  }

  ghost predicate IsComplement(gaps: seq<LbaSpan>, window: LbaSpan, ps: seq<Partition>) {
    && Separated(gaps)
    && forall lba: nat :: Covers(gaps, lba) <==> window.0 <= lba <= window.1 && !Allocated(ps, lba)
  }

  lemma CoversSplit(a: LbaSpan, rest: seq<LbaSpan>, lba: nat)
    ensures Covers([a] + rest, lba) <==> a.0 <= lba <= a.1 || Covers(rest, lba)
  {
    var all := [a] + rest;
    if Covers(rest, lba) {
      var k :| 0 <= k < |rest| && rest[k].0 <= lba <= rest[k].1;
      assert all[k + 1] == rest[k];
    }
    if a.0 <= lba <= a.1 {
      assert all[0] == a;
    }
  }

  lemma AllocatedSplit(ps: seq<Partition>, lba: nat)
    requires ps != []
    ensures Allocated(ps, lba) <==> (Usable(ps[0]) && ps[0].startLba <= lba <= ps[0].endLba) || Allocated(ps[1..], lba)
  {
    if Allocated(ps[1..], lba) {
      var k :| 0 <= k < |ps[1..]| && Usable(ps[1..][k]) && ps[1..][k].startLba <= lba <= ps[1..][k].endLba;
      assert ps[k + 1] == ps[1..][k];
    }
  }

  lemma {:induction false} SweepComplement(sorted: seq<Partition>, pos: nat, end: nat)
    requires Sorted(sorted) && end < U64_MAX
    ensures IsComplement(Sweep(sorted, pos, end), (pos, end), sorted)
    ensures forall k | 0 <= k < |Sweep(sorted, pos, end)| :: pos <= Sweep(sorted, pos, end)[k].0
    decreases |sorted|
  {
    if sorted != [] {
      var p, rest := sorted[0], sorted[1..];
      forall lba: nat
        ensures Allocated(sorted, lba) <==> (Usable(p) && p.startLba <= lba <= p.endLba) || Allocated(rest, lba)
      {
        AllocatedSplit(sorted, lba);
      }
      if !Usable(p) {
        SweepComplement(rest, pos, end);
      } else {
        var next := Max(SatAdd(p.endLba, 1), pos);
        SweepComplement(rest, next, end);
        assert sorted == [p] + rest;
        SweepStep(p, rest, pos, end);
      }
    } else if pos <= end {
      assert Sweep(sorted, pos, end)[0] == (pos, end);
    }
  }

  lemma NoneBefore(p: Partition, rest: seq<Partition>, lba: nat)
    requires Sorted([p] + rest) && lba < p.startLba
    ensures !Allocated(rest, lba)
  {
    forall k | 0 <= k < |rest|
      ensures p.startLba <= rest[k].startLba
    {
      assert ([p] + rest)[0].startLba <= ([p] + rest)[k + 1].startLba;
    }
  }

  // A gap before the rest of the complement, which resumes at `next`.
  lemma GapThenRest(gap: LbaSpan, tail: seq<LbaSpan>, next: nat, end: nat, rest: seq<Partition>)
    requires gap.0 <= gap.1 && (gap.1 + 1 < next || end < next) && IsComplement(tail, (next, end), rest)
    ensures Separated([gap] + tail)
    ensures forall lba: nat ::
              Covers([gap] + tail, lba) <==> gap.0 <= lba <= gap.1 || (next <= lba <= end && !Allocated(rest, lba))
  {
    hide Allocated;
    forall k | 0 <= k < |tail|
      ensures gap.1 + 1 < tail[k].0
    {
      assert Covers(tail, tail[k].0);
    }
    hide Covers;
    forall lba: nat
      ensures Covers([gap] + tail, lba) <==> gap.0 <= lba <= gap.1 || Covers(tail, lba)
    {
      CoversSplit(gap, tail, lba);
    }
  }

  // The sectors still free once `p` is passed, when the sweep resumes at `next`.
  lemma FreeAfter(p: Partition, rest: seq<Partition>, pos: nat, next: nat, end: nat, lba: nat)
    requires Sorted([p] + rest) && Usable(p) && end < U64_MAX && next == Max(SatAdd(p.endLba, 1), pos)
    requires Allocated([p] + rest, lba) <==> p.startLba <= lba <= p.endLba || Allocated(rest, lba)
    ensures pos <= lba <= end && !Allocated([p] + rest, lba) <==>
              (pos <= lba <= end && lba < p.startLba) || (next <= lba <= end && !Allocated(rest, lba))
  {
    hide Allocated, Sorted;
    if lba < p.startLba {
      NoneBefore(p, rest, lba);
    }
  }

  lemma SweepStep(p: Partition, rest: seq<Partition>, pos: nat, end: nat)
    requires Sorted([p] + rest) && end < U64_MAX && Usable(p)
    requires var next := Max(SatAdd(p.endLba, 1), pos);
             && IsComplement(Sweep(rest, next, end), (next, end), rest)
             && forall k | 0 <= k < |Sweep(rest, next, end)| :: next <= Sweep(rest, next, end)[k].0
    requires forall lba: nat :: Allocated([p] + rest, lba) <==> p.startLba <= lba <= p.endLba || Allocated(rest, lba)
    ensures IsComplement(Sweep([p] + rest, pos, end), (pos, end), [p] + rest)
    ensures forall k | 0 <= k < |Sweep([p] + rest, pos, end)| :: pos <= Sweep([p] + rest, pos, end)[k].0
  {
    hide Sweep, Allocated, Sorted, Covers, Separated;
    var next := Max(SatAdd(p.endLba, 1), pos);
    var tail := Sweep(rest, next, end);
    var gapEnd := Min(SatSub(p.startLba, 1), end);
    SweepTurn([p] + rest, 0, pos, end);
    assert ([p] + rest)[0..] == [p] + rest && ([p] + rest)[1..] == rest;
    forall lba: nat
      ensures pos <= lba <= end && !Allocated([p] + rest, lba) <==>
                (pos <= lba <= end && lba < p.startLba) || (next <= lba <= end && !Allocated(rest, lba))
    {
      FreeAfter(p, rest, pos, next, end, lba);
    }
    if p.startLba > pos && gapEnd >= pos {
      GapThenRest((pos, gapEnd), tail, next, end, rest);
    } else {
      assert Sweep([p] + rest, pos, end) == tail;
    }
  }

  lemma AllocatedMultiset(a: seq<Partition>, b: seq<Partition>, lba: nat)
    requires multiset(a) == multiset(b) && Allocated(a, lba)
    ensures Allocated(b, lba)
  {
    var k :| 0 <= k < |a| && Usable(a[k]) && a[k].startLba <= lba <= a[k].endLba;
    assert a[k] in multiset(b);
    var j :| 0 <= j < |b| && b[j] == a[k];
  }

  /**
   For any order, overlap or nesting of partitions the gaps are sorted, disjoint and non-adjacent, and
   a sector of the window lies in one exactly when no usable partition holds it.
   */
  lemma GapsAreComplement(layout: DiskLayout)
    requires layout.totalSectors <= U64_MAX
    ensures IsComplement(GapsOf(layout), Window(layout), layout.partitions)
  {
    var ps := layout.partitions;
    if ps == [] {
      if layout.totalSectors > 1 {
        assert GapsOf(layout)[0] == Window(layout);
      }
    } else {
      var sorted := SortByStart(ps);
      SortSorted(ps);
      SortElements(ps);
      SweepComplement(sorted, Window(layout).0, Window(layout).1);
      forall lba: nat
        ensures Allocated(sorted, lba) <==> Allocated(ps, lba)
      {
        if Allocated(sorted, lba) {
          AllocatedMultiset(sorted, ps, lba);
        }
        if Allocated(ps, lba) {
          AllocatedMultiset(ps, sorted, lba);
        }
      }
    }
  }

  /** Separated spans are determined by the sectors they cover, so the complement is unique. */
  lemma {:induction false} SeparatedUnique(a: seq<LbaSpan>, b: seq<LbaSpan>)
    requires Separated(a) && Separated(b)
    requires forall lba: nat :: Covers(a, lba) <==> Covers(b, lba)
    ensures a == b
    decreases |a|
  {
    if a == [] || b == [] {
      if a != [] {
        assert Covers(a, a[0].0);
      }
      if b != [] {
        assert Covers(b, b[0].0);
      }
    } else {
      FirstEqual(a, b);
      forall lba: nat
        ensures Covers(a[1..], lba) <==> Covers(b[1..], lba)
      {
        CoversTail(a, lba);
        CoversTail(b, lba);
      }
      SeparatedUnique(a[1..], b[1..]);
      assert a == [a[0]] + a[1..] && b == [b[0]] + b[1..];
    }
  }

  lemma CoversTail(a: seq<LbaSpan>, lba: nat)
    requires Separated(a) && a != []
    ensures Covers(a[1..], lba) <==> Covers(a, lba) && lba > a[0].1
  {
    assert a == [a[0]] + a[1..];
    CoversSplit(a[0], a[1..], lba);
  }

  lemma FirstEqual(a: seq<LbaSpan>, b: seq<LbaSpan>)
    requires Separated(a) && Separated(b) && a != [] && b != []
    requires forall lba: nat :: Covers(a, lba) <==> Covers(b, lba)
    ensures a[0] == b[0]
  {
    assert Covers(a, a[0].0) && Covers(b, b[0].0);
    assert a[0].0 == b[0].0;
    assert Covers(a, a[0].1) && Covers(b, b[0].1);
    assert !Covers(a, a[0].1 + 1) && !Covers(b, b[0].1 + 1);
  }

  /* Findings */

  predicate IsExtended(p: Partition) {
    p.typeByte.Some? && IsExtendedType(p.typeByte.value)
  }

  // The pair is reported: it overlaps, and neither is an extended container holding the other.
  predicate Overlapping(p1: Partition, p2: Partition) {
    && !(IsExtended(p1) && p2.startLba >= p1.startLba && p2.endLba <= p1.endLba)
    && !(IsExtended(p2) && p1.startLba >= p2.startLba && p1.endLba <= p2.endLba)
    && p1.startLba <= p2.endLba && p2.startLba <= p1.endLba
  }

  predicate OutOfBounds(p: Partition, totalSectors: nat) {
    p.startLba >= totalSectors || p.endLba >= totalSectors || p.startLba > p.endLba || p.totalSectors == 0
  }

  predicate HasSector(p: Partition, lba: nat) {
    p.startLba <= lba <= p.endLba
  }

  // An extended container that holds every sector of the other partition.
  ghost predicate Contains(p: Partition, q: Partition) {
    (p.typeByte == Some(0x05) || p.typeByte == Some(0x0F) || p.typeByte == Some(0x85))
    && forall lba: nat | HasSector(q, lba) :: HasSector(p, lba)
  }

  /** Partitions overlap exactly when they share a sector and neither is a container that holds the other. */
  lemma OverlapIff(p: Partition, q: Partition)
    requires p.startLba <= p.endLba && q.startLba <= q.endLba
    ensures Overlapping(p, q) <==>
              (exists lba: nat :: HasSector(p, lba) && HasSector(q, lba)) && !Contains(p, q) && !Contains(q, p)
  {
    assert HasSector(p, p.startLba) && HasSector(p, p.endLba) && HasSector(q, q.startLba) && HasSector(q, q.endLba);
    var first := Max(p.startLba, q.startLba);
    if p.startLba <= q.endLba && q.startLba <= p.endLba {
      assert HasSector(p, first) && HasSector(q, first);
    }
  }

  /** A partition is within bounds exactly when it counts sectors, has some, and has none past the disk. */
  lemma InBoundsIff(p: Partition, totalSectors: nat)
    ensures !OutOfBounds(p, totalSectors) <==>
              p.totalSectors > 0 && p.startLba <= p.endLba && forall lba: nat | HasSector(p, lba) :: lba < totalSectors
  {
    if p.startLba <= p.endLba {
      assert HasSector(p, p.startLba) && HasSector(p, p.endLba);
    }
  }

  predicate Before(a: IndexPair, b: IndexPair) {
    a.0 < b.0 || (a.0 == b.0 && a.1 < b.1)
  }

  // Each finding is represented by the positions of its two partitions.
  method CheckOverlappingPartitions(ps: seq<Partition>) returns (findings: seq<IndexPair>)
    ensures forall i: nat, j: nat :: (i, j) in findings <==> i < j < |ps| && Overlapping(ps[i], ps[j])
    ensures forall a, b | 0 <= a < b < |findings| :: Before(findings[a], findings[b])
  {
    findings := [];
    for i := 0 to |ps|
      invariant forall x: nat, y: nat :: (x, y) in findings <==> x < i && x < y < |ps| && Overlapping(ps[x], ps[y])
      invariant forall a, b | 0 <= a < b < |findings| :: Before(findings[a], findings[b])
    {
      for j := i + 1 to |ps|
        invariant forall x: nat, y: nat ::
                    (x, y) in findings <==> x < y < |ps| && (x < i || (x == i && y < j)) && Overlapping(ps[x], ps[y])
        invariant forall a, b | 0 <= a < b < |findings| :: Before(findings[a], findings[b])
      {
        var p1, p2 := ps[i], ps[j];
        if (IsExtended(p1) && p2.startLba >= p1.startLba && p2.endLba <= p1.endLba)
           || (IsExtended(p2) && p1.startLba >= p2.startLba && p1.endLba <= p2.endLba) {
          continue;
        }
        if p1.startLba <= p2.endLba && p2.startLba <= p1.endLba {
          forall a | 0 <= a < |findings|
            ensures Before(findings[a], (i, j))
          {
            assert (findings[a].0, findings[a].1) in findings;
          }
          findings := findings + [(i, j)];
        }
      }
    }
  }

  method CheckOutOfBoundsPartitions(ps: seq<Partition>, totalSectors: nat) returns (findings: seq<nat>)
    ensures forall k: nat :: k in findings <==> k < |ps| && OutOfBounds(ps[k], totalSectors)
    ensures forall a, b | 0 <= a < b < |findings| :: findings[a] < findings[b]
  {
    findings := [];
    for k := 0 to |ps|
      invariant forall x: nat :: x in findings <==> x < k && OutOfBounds(ps[x], totalSectors)
      invariant forall a | 0 <= a < |findings| :: findings[a] < k
      invariant forall a, b | 0 <= a < b < |findings| :: findings[a] < findings[b]
    {
      var p := ps[k];
      if p.startLba >= totalSectors || p.endLba >= totalSectors || p.startLba > p.endLba || p.totalSectors == 0 {
        findings := findings + [k];
      }
    }
  }

  /* Sectors are conserved */

  predicate Disjoint(ps: seq<Partition>) {
    forall i, j | 0 <= i < j < |ps| :: ps[i].endLba < ps[j].startLba || ps[j].endLba < ps[i].startLba
  }

  function TotalGap(gaps: seq<LbaSpan>): int {
    if gaps == [] then 0 else gaps[0].1 - gaps[0].0 + 1 + TotalGap(gaps[1..])
  }

  function TotalAllocated(ps: seq<Partition>): nat {
    if ps == [] then 0 else ps[0].totalSectors + TotalAllocated(ps[1..])
  }

  predicate Inside(ps: seq<Partition>, lo: nat, hi: nat) {
    forall k | 0 <= k < |ps| ::
        lo <= ps[k].startLba <= ps[k].endLba <= hi && ps[k].totalSectors == ps[k].endLba - ps[k].startLba + 1
  }

  lemma SweepTotal(sorted: seq<Partition>, pos: nat, end: nat)
    requires sorted != [] && Usable(sorted[0]) && pos <= sorted[0].startLba && sorted[0].endLba <= end < U64_MAX
    ensures TotalGap(Sweep(sorted, pos, end))
            == sorted[0].startLba - pos + TotalGap(Sweep(sorted[1..], sorted[0].endLba + 1, end))
  {
    var p := sorted[0];
    var tail := Sweep(sorted[1..], p.endLba + 1, end);
    if p.startLba > pos {
      var gap: LbaSpan := (pos, p.startLba - 1);
      assert Sweep(sorted, pos, end) == [gap] + tail;
      assert ([gap] + tail)[1..] == tail;
    } else {
      assert Sweep(sorted, pos, end) == [] + tail == tail;
    }
  }

  lemma {:induction false} SweepConserves(sorted: seq<Partition>, pos: nat, end: nat)
    requires Sorted(sorted) && Disjoint(sorted) && Inside(sorted, pos, end) && pos <= end + 1 <= U64_MAX
    ensures TotalGap(Sweep(sorted, pos, end)) + TotalAllocated(sorted) == end + 1 - pos
    decreases |sorted|
  {
    if sorted != [] {
      hide Sorted, Disjoint, Inside, Sweep;
      DropFirst(sorted, pos, end);
      SweepConserves(sorted[1..], sorted[0].endLba + 1, end);
      SweepTotal(sorted, pos, end);
    }
  }

  lemma DropFirst(sorted: seq<Partition>, pos: nat, end: nat)
    requires sorted != [] && Sorted(sorted) && Disjoint(sorted) && Inside(sorted, pos, end)
    ensures var p, rest := sorted[0], sorted[1..];
            && Sorted(rest) && Disjoint(rest) && Inside(rest, p.endLba + 1, end)
            && pos <= p.startLba <= p.endLba <= end && p.totalSectors == p.endLba - p.startLba + 1
  {
    assert forall k | 0 <= k < |sorted[1..]| :: sorted[1..][k] == sorted[k + 1];
  }

  lemma {:induction false} InsertTotal(p: Partition, sorted: seq<Partition>)
    ensures TotalAllocated(Insert(p, sorted)) == p.totalSectors + TotalAllocated(sorted)
  {
    if !(sorted == [] || p.startLba <= sorted[0].startLba) {
      InsertTotal(p, sorted[1..]);
    }
  }

  lemma {:induction false} SortTotal(ps: seq<Partition>)
    ensures TotalAllocated(SortByStart(ps)) == TotalAllocated(ps)
  {
    if ps != [] {
      SortTotal(ps[1..]);
      InsertTotal(ps[0], SortByStart(ps[1..]));
    }
  }

  lemma {:induction false} InsertDisjoint(p: Partition, sorted: seq<Partition>)
    requires Disjoint(sorted)
    requires forall q | q in sorted :: p.endLba < q.startLba || q.endLba < p.startLba
    ensures Disjoint(Insert(p, sorted))
  {
    if sorted == [] || p.startLba <= sorted[0].startLba {
      DisjointPrepend(p, sorted);
    } else {
      var rest := Insert(p, sorted[1..]);
      DisjointTail(sorted);
      InsertDisjoint(p, sorted[1..]);
      InsertElements(p, sorted[1..]);
      hide Disjoint;
      forall j | 0 <= j < |rest|
        ensures sorted[0].endLba < rest[j].startLba || rest[j].endLba < sorted[0].startLba
      {
        assert rest[j] in multiset(rest);
        assert rest[j] == p || rest[j] in sorted[1..];
      }
      DisjointPrepend(sorted[0], rest);
    }
  }

  lemma DisjointTail(sorted: seq<Partition>)
    requires sorted != [] && Disjoint(sorted)
    ensures Disjoint(sorted[1..])
    ensures forall q | q in sorted[1..] :: sorted[0].endLba < q.startLba || q.endLba < sorted[0].startLba
  {
    assert forall j | 0 <= j < |sorted[1..]| :: sorted[1..][j] == sorted[j + 1];
  }

  lemma DisjointPrepend(p: Partition, rest: seq<Partition>)
    requires Disjoint(rest) && forall j | 0 <= j < |rest| :: p.endLba < rest[j].startLba || rest[j].endLba < p.startLba
    ensures Disjoint([p] + rest)
  {
  }

  lemma {:induction false} SortDisjoint(ps: seq<Partition>)
    requires Disjoint(ps)
    ensures Disjoint(SortByStart(ps))
  {
    if ps != [] {
      var rest := SortByStart(ps[1..]);
      SortDisjoint(ps[1..]);
      SortElements(ps[1..]);
      forall q | q in rest
        ensures ps[0].endLba < q.startLba || q.endLba < ps[0].startLba
      {
        assert q in multiset(rest);
        assert q in ps[1..];
        var k :| 0 <= k < |ps[1..]| && ps[1..][k] == q;
        assert ps[k + 1] == q;
      }
      InsertDisjoint(ps[0], rest);
    }
  }

  lemma SortInside(ps: seq<Partition>, lo: nat, hi: nat)
    requires Inside(ps, lo, hi)
    ensures Inside(SortByStart(ps), lo, hi)
  {
    var sorted := SortByStart(ps);
    SortElements(ps);
    forall k | 0 <= k < |sorted|
      ensures sorted[k] in ps
    {
      assert sorted[k] in multiset(sorted);
    }
  }

  /**
   Sectors are conserved: when a parsed table without extended containers draws neither the overlap
   nor the out-of-bounds finding and stays in its window, gaps and partitions add up to the window.
   */
  lemma SectorsConserved(disk: seq<byte>, totalBytes: nat, ss: nat, utf16: Utf16)
    requires totalBytes <= U64_MAX && DiskLayoutOf(disk, totalBytes, ss, utf16).Ok?
    requires var layout := DiskLayoutOf(disk, totalBytes, ss, utf16).value;
             var ps := layout.partitions;
             && (forall k | 0 <= k < |ps| :: !IsExtended(ps[k]) && !OutOfBounds(ps[k], layout.totalSectors))
             && (forall i, j | 0 <= i < j < |ps| :: !Overlapping(ps[i], ps[j]))
             && forall k | 0 <= k < |ps| :: Window(layout).0 <= ps[k].startLba && ps[k].endLba <= Window(layout).1
    ensures var layout := DiskLayoutOf(disk, totalBytes, ss, utf16).value;
            TotalGap(GapsOf(layout)) + TotalAllocated(layout.partitions) == Window(layout).1 - Window(layout).0 + 1
  {
    hide DiskLayoutOf;
    var layout := DiskLayoutOf(disk, totalBytes, ss, utf16).value;
    LayoutSectors(disk, totalBytes, ss, utf16);
    ParsedSpansExact(disk, totalBytes, ss, utf16);
    LayoutConserves(layout);
  }

  lemma LayoutSectors(disk: seq<byte>, totalBytes: nat, ss: nat, utf16: Utf16)
    requires totalBytes <= U64_MAX && DiskLayoutOf(disk, totalBytes, ss, utf16).Ok?
    ensures DiskLayoutOf(disk, totalBytes, ss, utf16).value.totalSectors <= U64_MAX
  {
  }

  lemma LayoutConserves(layout: DiskLayout)
    requires layout.totalSectors <= U64_MAX && ExactSpans(layout.partitions)
    requires var ps := layout.partitions;
             && (forall k | 0 <= k < |ps| :: !IsExtended(ps[k]) && !OutOfBounds(ps[k], layout.totalSectors))
             && (forall i, j | 0 <= i < j < |ps| :: !Overlapping(ps[i], ps[j]))
             && forall k | 0 <= k < |ps| :: Window(layout).0 <= ps[k].startLba && ps[k].endLba <= Window(layout).1
    ensures TotalGap(GapsOf(layout)) + TotalAllocated(layout.partitions) == Window(layout).1 - Window(layout).0 + 1
  {
    var ps, lo, hi := layout.partitions, Window(layout).0, Window(layout).1;
    if ps == [] {
      EmptyLayoutConserves(layout);
      return;
    }
    assert Disjoint(ps);
    assert Inside(ps, lo, hi) by {
      forall k | 0 <= k < |ps|
        ensures lo <= ps[k].startLba <= ps[k].endLba <= hi && ps[k].totalSectors == ps[k].endLba - ps[k].startLba + 1
      {
        assert ExactSpan(ps[k]);
      }
    }
    assert lo <= hi by {
      assert lo <= ps[0].startLba <= ps[0].endLba <= hi;
    }
    SortSorted(ps);
    SortDisjoint(ps);
    SortInside(ps, lo, hi);
    SortTotal(ps);
    SweepConserves(SortByStart(ps), lo, hi);
  }

  lemma EmptyLayoutConserves(layout: DiskLayout)
    requires layout.partitions == []
    ensures TotalGap(GapsOf(layout)) + TotalAllocated([]) == Window(layout).1 - Window(layout).0 + 1
  {
    if layout.totalSectors > 1 {
      assert GapsOf(layout)[1..] == [];
    }
  }
}
