/** The whole carving pass over one disk, and exactly when it can touch a partition. */
module CarveSafety {
  import opened Bytes
  import opened Partitions
  import opened FreeSpace
  import opened Carving
  import opened CarveRanges

  predicate FilesMiss(files: seq<CarvedFile>, ps: seq<Partition>, sec: nat) {
    forall k, j | 0 <= k < |files| && 0 <= j < |ps| ::
      Misses(files[k].start, files[k].start + Max(files[k].size, 1), ps[j], sec)
  }

  // The ranges are built for the very disk that is carved.
  ghost function Carved(disk: seq<byte>, device: nat -> Reads, ps: seq<Partition>, sec: nat, quota: nat,
                        detect: Detector): seq<CarvedFile>
    requires ps != [] && sec > 0
  {
    FilesOf(CarveAll(disk, device, RangesOf(ps, sec, |disk|), 0, quota, sec, detect).findings)
  }

  // Whatever the detector recognises and the reads get, no file carved from this disk touches a partition.
  ghost predicate CarvingSafe(disk: seq<byte>, ps: seq<Partition>, sec: nat)
    requires ps != [] && sec > 0
  {
    forall device, quota, detect :: FilesMiss(Carved(disk, device, ps, sec, quota, detect), ps, sec)
  }

  // No partition reaches past a later one after which at least sixteen bytes of the disk are free.
  ghost predicate NoOverhangOn(size: nat, ps: seq<Partition>, sec: nat) {
    NoOverhang(SortByStart(ps), sec, size, 16, size)
  }

  // Offsets stay below the limit of signed file offsets.
  predicate SmallDisk(size: nat, ps: seq<Partition>, sec: nat) {
    size < OFFSET_LIMIT && forall k | 0 <= k < |ps| :: StartByte(ps[k], sec) < OFFSET_LIMIT
  }

  /* Without an overhang nothing is touched */

  lemma NoOverhangSafe(disk: seq<byte>, device: nat -> Reads, ps: seq<Partition>, sec: nat, quota: nat,
                       detect: Detector)
    requires ps != [] && 0 < sec < U32_LIMIT && SmallDisk(|disk|, ps, sec) && ValidPartitions(ps)
    ensures var files := Carved(disk, device, ps, sec, quota, detect);
            Ordered(files) && (NoOverhangOn(|disk|, ps, sec) ==> FilesMiss(files, ps, sec))
  {
    hide FilesOf, RangesOf, Ordered, Increasing, CarveAll, ValidPartitions, NoOverhang, Reachable;
    var ranges := RangesOf(ps, sec, |disk|);
    RangesBounded(ps, sec, |disk|);
    RangesAvoidIff(ps, sec, |disk|, 16, |disk|);
    CarveAllSound(disk, device, ranges, 0, quota, sec, detect);
    if NoOverhangOn(|disk|, ps, sec) {
      var files := Carved(disk, device, ps, sec, quota, detect);
      forall k, j | 0 <= k < |files| && 0 <= j < |ps|
        ensures Misses(files[k].start, files[k].start + Max(files[k].size, 1), ps[j], sec)
      {
        assert InSomeRange(files[k], ranges, |disk|);
        var r :| 0 <= r < |ranges| && Reachable(ranges[r], 16, |disk|)
                 && Within(files[k], ranges[r].0, ranges[r].0 + ranges[r].1);
        assert Avoids(ranges[r], ps, sec);
      }
    }
  }

  /**
   The carving pass of a scan: at most the quota of findings, in increasing order, and off every
   partition when no valid partition overhangs a free range that follows a later one.
   */
  method CarveAround(disk: seq<byte>, device: nat -> Reads, ps: seq<Partition>, sectorSize: u32, maxFiles: nat,
                     detect: Detector, findings: seq<CarveFinding>)
    returns (findings': seq<CarveFinding>)
    requires ps != [] && SmallDisk(|disk|, ps, Sector(sectorSize))
    ensures var sec := if sectorSize == 0 then 512 else sectorSize;
            var pass := CarveAll(disk, device, RangesOf(ps, sec, |disk|), 0, maxFiles, sec, detect);
            findings' == findings + pass.findings
    ensures |findings'| - |findings| <= maxFiles
    ensures ValidPartitions(ps) ==>
              var files := FilesOf(findings'[|findings|..]);
              && Ordered(files)
              && (NoOverhangOn(|disk|, ps, Sector(sectorSize)) ==> FilesMiss(files, ps, Sector(sectorSize)))
  {
    hide FilesOf, RangesOf, Ordered, ValidPartitions, CarveAll, NoOverhangOn, FilesMiss;
    var sec := Sector(sectorSize);
    var ranges := UnallocatedRanges(ps, sec, |disk|);
    RangesBounded(ps, sec, |disk|);
    var files;
    files, findings' := CarveUnallocatedSpace(disk, device, ranges, maxFiles, sectorSize, detect, findings);
    assert findings'[|findings|..] == CarveAll(disk, device, ranges, 0, maxFiles, sec, detect).findings;
    if ValidPartitions(ps) {
      NoOverhangSafe(disk, device, ps, sec, maxFiles, detect);
    }
  }

  /* With an overhang some reads and some detector lead the carver into a partition */

  // A detector that takes anything for a file of any length.
  function Greedy(): Detector {
    s => Some(Header("", OFFSET_LIMIT, false))
  }

  function UpTo(n: nat): Reads {
    p => Some(n)
  }

  // Reads get whole chunks in range `t`, and single bytes elsewhere.
  function FullAt(t: nat): nat -> Reads {
    k => UpTo(if k == t then CHUNK else 1)
  }

  lemma ReadUpTo(disk: seq<byte>, n: nat, offset: nat, want: nat)
    requires want > 0 && n > 0
    ensures ReadSome(disk, UpTo(n), offset, want).Some?
    ensures |ReadSome(disk, UpTo(n), offset, want).value| == Min(n, Min(want, Max(|disk| - offset, 0)))
  {
  }

  // Read byte by byte, a range yields nothing: no header fits.
  lemma {:induction false} ByteByByte(disk: seq<byte>, current: nat, end: nat, quota: nat, sec: nat, detect: Detector)
    requires sec > 0
    ensures CarveRange(disk, UpTo(1), current, end, quota, sec, detect) == Pass([], true)
    decreases end - current
  {
    hide CarveRange, ReadSome, UpTo;
    RangeTurn(disk, UpTo(1), current, end, quota, sec, detect);
    if current < end && quota > 0 {
      ReadUpTo(disk, 1, current, Min(end - current, CHUNK));
      if current < |disk| {
        ByteByByte(disk, current + 1, end, quota, sec, detect);
      }
    }
  }

  // Read in whole chunks, a range with room for a header on the disk is carved whole.
  lemma CarvedWhole(disk: seq<byte>, at: nat, end: nat, sec: nat)
    requires sec > 0 && at + 16 <= Min(end, |disk|) && end < OFFSET_LIMIT
    ensures CarveRange(disk, UpTo(CHUNK), at, end, 1, sec, Greedy())
            == Pass([CarveFinding(CarvedFile("", at, end - at), false)], true)
  {
    hide CarveRange, CarveChunk, Step, ReadSome, UpTo;
    var device, detect := UpTo(CHUNK), Greedy();
    RangeTurn(disk, device, at, end, 1, sec, detect);
    ReadUpTo(disk, CHUNK, at, Min(end - at, CHUNK));
    var chunk := ReadSome(disk, device, at, Min(end - at, CHUNK)).value;
    ChunkTurn(chunk, 0, at, end, 1, sec, detect);
    var next := at + Step(end - at, sec);
    if next < at + |chunk| {
      ChunkTurn(chunk, next - at, at, end, 0, sec, detect);
    }
    var f := CarveFinding(CarvedFile("", at, end - at), false);
    assert [f] + [] == [f];
    RangeTurn(disk, device, CarveChunk(chunk, 0, at, end, 1, sec, detect).1, end, 0, sec, detect);
  }

  lemma {:induction false} RangeIsCarved(disk: seq<byte>, ranges: seq<ByteRange>, k: nat, t: nat, sec: nat)
    requires 0 < sec && k <= t < |ranges| && Reachable(ranges[t], 16, |disk|)
             && ranges[t].0 + ranges[t].1 < OFFSET_LIMIT
    ensures CarveAll(disk, FullAt(t), ranges, k, 1, sec, Greedy()).findings
            == [CarveFinding(CarvedFile("", ranges[t].0, ranges[t].1), false)]
    decreases t - k
  {
    hide CarveRange, CarveAll, Greedy, UpTo;
    var f := CarveFinding(CarvedFile("", ranges[t].0, ranges[t].1), false);
    RangesTurn(disk, FullAt(t), ranges, k, 1, sec, Greedy());
    if k == t {
      CarvedWhole(disk, ranges[t].0, ranges[t].0 + ranges[t].1, sec);
      RangesTurn(disk, FullAt(t), ranges, k + 1, 0, sec, Greedy());
      assert [f] + [] == [f];
    } else {
      ByteByByte(disk, ranges[k].0, ranges[k].0 + ranges[k].1, 1, sec, Greedy());
      RangeIsCarved(disk, ranges, k + 1, t, sec);
      assert [] + [f] == [f];
    }
  }

  lemma OverhangIsCarved(disk: seq<byte>, ps: seq<Partition>, sec: nat)
    requires ps != [] && 0 < sec < U32_LIMIT && SmallDisk(|disk|, ps, sec) && ValidPartitions(ps)
    requires !NoOverhangOn(|disk|, ps, sec)
    ensures !CarvingSafe(disk, ps, sec)
  {
    hide RangesOf, CarveAll, ValidPartitions, NoOverhang, Increasing, StartByte, EndByte, Greedy, FullAt;
    var ranges := RangesOf(ps, sec, |disk|);
    RangesBounded(ps, sec, |disk|);
    RangesAvoidIff(ps, sec, |disk|, 16, |disk|);
    var r :| r in ranges && Reachable(r, 16, |disk|) && !Avoids(r, ps, sec);
    var t :| 0 <= t < |ranges| && ranges[t] == r;
    RangeIsCarved(disk, ranges, 0, t, sec);
    var files := Carved(disk, FullAt(t), ps, sec, 1, Greedy());
    assert files == [CarvedFile("", r.0, r.1)];
    assert !FilesMiss(files, ps, sec) by {
      var j :| 0 <= j < |ps| && !Misses(r.0, r.0 + r.1, ps[j], sec);
      assert !Misses(files[0].start, files[0].start + Max(files[0].size, 1), ps[j], sec);
    }
  }

  /**
   On every disk: carving is safe, with every detector and all reads, if and only if no partition reaches
   past a later one after which at least sixteen bytes of the disk are free.
   */
  lemma CarvingSafeIff(disk: seq<byte>, ps: seq<Partition>, sec: nat)
    requires ps != [] && 0 < sec < U32_LIMIT && SmallDisk(|disk|, ps, sec) && ValidPartitions(ps)
    ensures CarvingSafe(disk, ps, sec) <==> NoOverhangOn(|disk|, ps, sec)
  {
    hide NoOverhangOn, ValidPartitions, Carved, FilesMiss, SmallDisk;
    if NoOverhangOn(|disk|, ps, sec) {
      forall device, quota, detect
        ensures FilesMiss(Carved(disk, device, ps, sec, quota, detect), ps, sec)
      {
        NoOverhangSafe(disk, device, ps, sec, quota, detect);
      }
    } else {
      OverhangIsCarved(disk, ps, sec);
    }
  }
}
