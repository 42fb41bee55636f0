/** Carving passes over nothing: every sector of a range is examined, or belongs to a file found earlier. */
module CarveCoverage {
  import opened Bytes
  import opened Carving

  // A whole number of sectors after `base`.
  ghost predicate OnGrid(base: nat, x: nat, sector: nat) {
    exists m: nat :: x == base + Sectors(m, sector)
  }

  function Sectors(m: nat, sector: nat): nat {
    m * sector
  }

  lemma SectorsAdd(m: nat, n: nat, sector: nat)
    ensures Sectors(m, sector) + Sectors(n, sector) == Sectors(m + n, sector)
    ensures Sectors(0, sector) == 0 && Sectors(1, sector) == sector
  {
  }

  lemma GridTransitive(a: nat, b: nat, c: nat, sector: nat)
    requires OnGrid(a, b, sector) && OnGrid(b, c, sector)
    ensures OnGrid(a, c, sector)
  {
    hide Sectors;
    var m: nat :| b == a + Sectors(m, sector);
    var n: nat :| c == b + Sectors(n, sector);
    SectorsAdd(m, n, sector);
  }

  // Of two points on the grid, the later is on the grid of the earlier, and a whole sector away at least.
  lemma GridDistance(base: nat, x: nat, y: nat, sector: nat)
    requires OnGrid(base, x, sector) && OnGrid(base, y, sector) && x <= y
    ensures OnGrid(x, y, sector) && (x < y ==> x + sector <= y)
  {
    hide Sectors;
    var m: nat :| x == base + Sectors(m, sector);
    var n: nat :| y == base + Sectors(n, sector);
    if m <= n {
      SectorsAdd(m, n - m, sector);
      if m < n {
        SectorsAdd(1, n - m - 1, sector);
      }
    } else {
      SectorsAdd(n, m - n, sector);
      SectorsAdd(0, 0, sector);
      assert y == x + Sectors(0, sector);
    }
  }

  lemma NextOnGrid(x: nat, sector: nat)
    ensures OnGrid(x, x, sector) && OnGrid(x, x + sector, sector)
  {
    SectorsAdd(0, 0, sector);
    assert x == x + Sectors(0, sector) && x + sector == x + Sectors(1, sector);
  }

  lemma StepOnGrid(x: nat, size: nat, sector: nat)
    requires sector > 0 && size + sector <= U64_MAX
    ensures OnGrid(x, x + Step(size, sector), sector)
  {
    var q := (size + sector - 1) / sector;
    assert q * sector + (size + sector - 1) % sector == size + sector - 1;
    assert Step(size, sector) == Max(Sectors(q, sector), Sectors(1, sector));
  }

  // The sector at `x` belongs to a carved file, or the detector was shown it and said no.
  ghost predicate Examined(x: nat, findings: seq<CarveFinding>, disk: seq<byte>, detect: Detector, sector: nat)
    requires sector > 0
  {
    || (exists k :: 0 <= k < |findings| && InStride(x, findings[k].file, sector))
    || (exists n: nat :: x + 16 <= n <= |disk| && detect(disk[x..n]).None?)
  }

  predicate InStride(x: nat, c: CarvedFile, sector: nat)
    requires sector > 0
  {
    c.start <= x < c.start + Step(c.size, sector)
  }

  lemma ExaminedMore(x: nat, a: seq<CarveFinding>, b: seq<CarveFinding>, disk: seq<byte>, detect: Detector, sector: nat)
    requires sector > 0 && (Examined(x, a, disk, detect, sector) || Examined(x, b, disk, detect, sector))
    ensures Examined(x, a + b, disk, detect, sector)
  {
    hide InStride;
    if k :| 0 <= k < |a| && InStride(x, a[k].file, sector) {
      assert (a + b)[k] == a[k];
    } else if k :| 0 <= k < |b| && InStride(x, b[k].file, sector) {
      assert (a + b)[|a| + k] == b[k];
    }
  }

  lemma Probed(x: nat, disk: seq<byte>, chunk: seq<byte>, i: nat, current: nat, detect: Detector,
               findings: seq<CarveFinding>, sector: nat)
    requires sector > 0 && current + |chunk| <= |disk| && chunk == disk[current..current + |chunk|]
    requires x == current + i && i + 16 <= |chunk| && detect(chunk[i..]).None?
    ensures Examined(x, findings, disk, detect, sector)
  {
    assert chunk[i..] == disk[x..current + |chunk|];
  }

  // Every sector from `from` on, as far as `to`, is examined.
  ghost predicate AllExamined(from: nat, to: nat, findings: seq<CarveFinding>, disk: seq<byte>, detect: Detector,
                              sector: nat)
    requires sector > 0
  {
    forall x: nat | OnGrid(from, x, sector) && x + 16 <= to :: Examined(x, findings, disk, detect, sector)
  }

  lemma NothingToExamine(from: nat, to: nat, findings: seq<CarveFinding>, disk: seq<byte>, detect: Detector,
                         sector: nat)
    requires sector > 0 && to < from + 16
    ensures AllExamined(from, to, findings, disk, detect, sector)
  {
    hide Examined;
  }

  lemma Join(from: nat, mid: nat, to: nat, a: seq<CarveFinding>, b: seq<CarveFinding>, disk: seq<byte>,
             detect: Detector, sector: nat)
    requires sector >= 16 && OnGrid(from, mid, sector)
    requires AllExamined(from, mid, a, disk, detect, sector) && AllExamined(mid, to, b, disk, detect, sector)
    ensures AllExamined(from, to, a + b, disk, detect, sector)
  {
    hide OnGrid, Examined;
    forall x: nat | OnGrid(from, x, sector) && x + 16 <= to
      ensures Examined(x, a + b, disk, detect, sector)
    {
      if x < mid {
        GridDistance(from, x, mid, sector);
      } else {
        GridDistance(from, mid, x, sector);
      }
      ExaminedMore(x, a, b, disk, detect, sector);
    }
  }

  lemma ProbeExamines(disk: seq<byte>, chunk: seq<byte>, i: nat, current: nat, detect: Detector, sector: nat)
    requires sector > 0 && current + |chunk| <= |disk| && chunk == disk[current..current + |chunk|]
    requires i + 16 <= |chunk| && detect(chunk[i..]).None?
    ensures AllExamined(current + i, current + i + sector, [], disk, detect, sector)
  {
    hide OnGrid, Examined;
    var at := current + i;
    Probed(at, disk, chunk, i, current, detect, [], sector);
    forall x: nat | OnGrid(at, x, sector) && x + 16 <= at + sector
      ensures x == at
    {
      NextOnGrid(at, sector);
      GridAfter(at, x, sector);
      GridDistance(at, at, x, sector);
    }
  }

  lemma GridAfter(base: nat, x: nat, sector: nat)
    requires OnGrid(base, x, sector)
    ensures base <= x
  {
  }

  lemma StrideExamines(f: CarveFinding, disk: seq<byte>, detect: Detector, sector: nat)
    requires sector > 0
    ensures AllExamined(f.file.start, f.file.start + Step(f.file.size, sector), [f], disk, detect, sector)
  {
    hide OnGrid, Step;
    forall x: nat | OnGrid(f.file.start, x, sector) && x + 16 <= f.file.start + Step(f.file.size, sector)
      ensures Examined(x, [f], disk, detect, sector)
    {
      GridAfter(f.file.start, x, sector);
      assert InStride(x, [f][0].file, sector);
    }
  }

  lemma {:induction false} ChunkExamined(disk: seq<byte>, chunk: seq<byte>, i: nat, current: nat, end: nat, quota: nat,
                                         sector: nat, detect: Detector)
    requires 16 <= sector < U32_LIMIT && current + |chunk| <= Min(|disk|, end) && chunk != [] && i < |chunk| + sector
             && end < OFFSET_LIMIT
    requires chunk == disk[current..current + |chunk|]
    requires |CarveChunk(chunk, i, current, end, quota, sector, detect).0| < quota
    ensures var r := CarveChunk(chunk, i, current, end, quota, sector, detect);
            && AllExamined(current + i, r.1, r.0, disk, detect, sector)
            && (OnGrid(current + i, current + |chunk|, sector) ==> OnGrid(current + i, r.1, sector))
    decreases |chunk| + sector - i
  {
    hide OnGrid, AllExamined, Step, CarveChunk;
    ChunkTurn(chunk, i, current, end, quota, sector, detect);
    var at, stop := current + i, current + |chunk|;
    if i + 16 > |chunk| {
      NothingToExamine(at, stop, [], disk, detect, sector);
    } else {
      var header := detect(chunk[i..]);
      if header.None? {
        var r := CarveChunk(chunk, i + sector, current, end, quota, sector, detect);
        ChunkExamined(disk, chunk, i + sector, current, end, quota, sector, detect);
        ProbeExamines(disk, chunk, i, current, detect, sector);
        NextOnGrid(at, sector);
        Join(at, at + sector, r.1, [], r.0, disk, detect, sector);
        assert [] + r.0 == r.0;
        GridOnward(at, at + sector, stop, r.1, sector);
      } else {
        var size := Min(header.value.size, end - at);
        var found := CarveFinding(CarvedFile(header.value.fileType, at, size), header.value.executable);
        var next := at + Step(size, sector);
        StrideExamines(found, disk, detect, sector);
        StepOnGrid(at, size, sector);
        if next < stop {
          var r := CarveChunk(chunk, next - current, current, end, quota - 1, sector, detect);
          ChunkExamined(disk, chunk, next - current, current, end, quota - 1, sector, detect);
          Join(at, next, r.1, [found], r.0, disk, detect, sector);
          GridOnward(at, next, stop, r.1, sector);
        }
      }
    }
  }

  // Going on from `mid` keeps to the grid of `at`.
  lemma GridOnward(at: nat, mid: nat, stop: nat, next: nat, sector: nat)
    requires OnGrid(at, mid, sector) && at < stop && (mid <= stop || mid == at + sector)
    requires OnGrid(mid, stop, sector) ==> OnGrid(mid, next, sector)
    ensures OnGrid(at, stop, sector) ==> OnGrid(at, next, sector)
  {
    hide OnGrid;
    if OnGrid(at, stop, sector) {
      NextOnGrid(at, sector);
      GridDistance(at, at, stop, sector);
      GridDistance(at, mid, stop, sector);
      GridTransitive(at, mid, next, sector);
    }
  }

  // Every read gets all it asks for.
  ghost predicate FullReads(device: Reads) {
    forall p: nat :: device(p).Some? && device(p).value >= CHUNK
  }

  lemma FullRead(disk: seq<byte>, device: Reads, offset: nat, want: nat)
    requires FullReads(device) && 0 < want <= CHUNK
    ensures ReadSome(disk, device, offset, want)
            == Some(if offset >= |disk| then [] else disk[offset..offset + Min(want, |disk| - offset)])
  {
  }

  /**
   With full reads and quota to spare, every sector of the range that a header fits in was shown to the
   detector in vain, or lies in the sectors of a file carved earlier; whole sectors must fill a chunk.
   */
  lemma {:induction false} EverySectorExamined(disk: seq<byte>, device: Reads, current: nat, end: nat, quota: nat,
                                               sector: nat, detect: Detector)
    requires 16 <= sector < U32_LIMIT && end < OFFSET_LIMIT && OnGrid(0, CHUNK, sector) && FullReads(device)
    requires |CarveRange(disk, device, current, end, quota, sector, detect).findings| < quota
    ensures var pass := CarveRange(disk, device, current, end, quota, sector, detect);
            pass.ok && AllExamined(current, Min(end, |disk|), pass.findings, disk, detect, sector)
    decreases end - current
  {
    hide CarveRange, CarveChunk, ReadSome, OnGrid, AllExamined, FullReads;
    RangeTurn(disk, device, current, end, quota, sector, detect);
    var last := Min(end, |disk|);
    NothingToExamine(current, Min(last, current), [], disk, detect, sector);
    if current < last {
      FullRead(disk, device, current, Min(end - current, CHUNK));
      var read := ReadSome(disk, device, current, Min(end - current, CHUNK)).value;
      var chunk := CarveChunk(read, 0, current, end, quota, sector, detect);
      var rest := CarveRange(disk, device, chunk.1, end, quota - |chunk.0|, sector, detect);
      ChunkExamined(disk, read, 0, current, end, quota, sector, detect);
      EverySectorExamined(disk, device, chunk.1, end, quota - |chunk.0|, sector, detect);
      if chunk.1 < last {
        ChunkMoves(read, 0, current, end, quota, sector, detect);
        GridShift(current, CHUNK, sector);
        Join(current, chunk.1, last, chunk.0, rest.findings, disk, detect, sector);
      } else {
        EnoughExamined(current, last, chunk.1, chunk.0, rest.findings, disk, detect, sector);
      }
    } else if current < end {
      FullRead(disk, device, current, Min(end - current, CHUNK));
    }
  }

  lemma GridShift(base: nat, n: nat, sector: nat)
    requires OnGrid(0, n, sector)
    ensures OnGrid(base, base + n, sector)
  {
  }

  lemma EnoughExamined(from: nat, to: nat, further: nat, a: seq<CarveFinding>, b: seq<CarveFinding>, disk: seq<byte>,
                       detect: Detector, sector: nat)
    requires sector > 0 && to <= further && AllExamined(from, further, a, disk, detect, sector)
    ensures AllExamined(from, to, a + b, disk, detect, sector)
  {
    hide OnGrid, Examined;
    forall x: nat | OnGrid(from, x, sector) && x + 16 <= to
      ensures Examined(x, a + b, disk, detect, sector)
    {
      ExaminedMore(x, a, b, disk, detect, sector);
    }
  }

  // Sector sizes in use divide the chunk.
  lemma CommonSectors()
    ensures OnGrid(0, CHUNK, 512) && OnGrid(0, CHUNK, 2048) && OnGrid(0, CHUNK, 4096)
  {
    assert CHUNK == Sectors(256, 512) == Sectors(64, 2048) == Sectors(32, 4096);
  }

  /**
   With full reads, the first look at a range shows the detector its first 131072 bytes, or what the range and disk
   hold.
   */
  lemma FirstLook(disk: seq<byte>, device: Reads, lo: nat, hi: nat, quota: nat, sector: nat, detect: Detector)
    requires sector > 0 && FullReads(device) && quota > 0 && lo + 16 <= Min(hi, |disk|)
    ensures var n := Min(lo + 131072, Min(hi, |disk|));
            detect(disk[lo..n]).Some? ==>
              var h, pass := detect(disk[lo..n]).value, CarveRange(disk, device, lo, hi, quota, sector, detect);
              && pass.findings != []
              && pass.findings[0] == CarveFinding(CarvedFile(h.fileType, lo, Min(h.size, hi - lo)), h.executable)
  {
    hide CarveRange, CarveChunk, ReadSome, FullReads, Step;
    RangeTurn(disk, device, lo, hi, quota, sector, detect);
    FullRead(disk, device, lo, Min(hi - lo, CHUNK));
    var chunk := ReadSome(disk, device, lo, Min(hi - lo, CHUNK)).value;
    ChunkTurn(chunk, 0, lo, hi, quota, sector, detect);
    assert chunk[0..] == chunk;
  }
}
