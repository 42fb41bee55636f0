/** Carving unallocated space: src/scan/carve.rs and the range builder of src/scan/mod.rs. */
module Carving {
  import opened Bytes

  datatype Header = Header(fileType: string, size: nat, executable: bool)

  // `detect_carved_header` and its size estimates: any recogniser at all.
  type Detector = seq<byte> -> Option<Header>

  datatype CarvedFile = CarvedFile(fileType: string, start: nat, size: nat)

  datatype CarveFinding = CarveFinding(file: CarvedFile, high: bool)

  // The findings of one pass, and whether every read succeeded.
  datatype Pass = Pass(findings: seq<CarveFinding>, ok: bool)

  // Offsets into a file are signed 64-bit numbers.
  const OFFSET_LIMIT := 0x8000_0000_0000_0000

  const CHUNK := 131072

  /* What a list of carved files must look like */

  predicate Within(c: CarvedFile, lo: nat, hi: nat) {
    lo <= c.start < hi && c.start + c.size <= hi
  }

  // Strictly increasing and not overlapping.
  predicate Ordered(files: seq<CarvedFile>) {
    forall i, j | 0 <= i < j < |files| ::
        files[i].start < files[j].start && files[i].start + files[i].size <= files[j].start
  }

  // A header was recognised at the file's first byte, and its size clamped to the range.
  ghost predicate Recognised(c: CarvedFile, disk: seq<byte>, detect: Detector, hi: nat) {
    exists n: nat :: c.start + 16 <= n <= |disk| && detect(disk[c.start..n]).Some?
                     && c.fileType == detect(disk[c.start..n]).value.fileType
                     && c.size == Min(detect(disk[c.start..n]).value.size, hi - c.start)
  }

  function FilesOf(findings: seq<CarveFinding>): seq<CarvedFile> {
    seq(|findings|, i requires 0 <= i < |findings| => findings[i].file)
  }

  // How far the carver steps past a file: whole sectors, at least one.
  function Step(size: nat, sector: nat): (n: nat)
    requires sector > 0
    ensures n >= sector
  {
    Max(SatMul(SatAdd(size, sector - 1) / sector, sector), sector)
  }

  lemma StepCovers(size: nat, sector: nat)
    requires sector > 0 && size + sector <= U64_MAX
    ensures Step(size, sector) >= size
  {
    var q := (size + sector - 1) / sector;
    assert q * sector + (size + sector - 1) % sector == size + sector - 1;
  }

  /* The passes the loops make */

  // One chunk, read at `current`, from its byte `i` on: what is found, and where to read next.
  function CarveChunk(chunk: seq<byte>, i: nat, current: nat, end: nat, quota: nat, sector: nat,
                      detect: Detector): (r: (seq<CarveFinding>, nat))
    requires sector > 0 && current + |chunk| <= end && chunk != [] && i < |chunk| + sector
    ensures |r.0| <= quota && r.1 > current
    decreases |chunk| + sector - i
  {
    if i + 16 > |chunk| || quota == 0 then ([], current + |chunk|) else
      var header := detect(chunk[i..]);
      if header.None? then CarveChunk(chunk, i + sector, current, end, quota, sector, detect) else
        var size := Min(header.value.size, end - (current + i));
        var found := CarveFinding(CarvedFile(header.value.fileType, current + i, size), header.value.executable);
        var next := current + i + Step(size, sector);
        if next < current + |chunk| then
          var rest := CarveChunk(chunk, next - current, current, end, quota - 1, sector, detect);
          ([found] + rest.0, rest.1)
        else ([found], next)
  }

  // One range, from `current` on.
  function CarveRange(disk: seq<byte>, device: Reads, current: nat, end: nat, quota: nat, sector: nat,
                      detect: Detector): (r: Pass)
    requires sector > 0
    ensures |r.findings| <= quota
    decreases end - current
  {
    if current >= end || quota == 0 then Pass([], true) else
      var read := ReadSome(disk, device, current, Min(end - current, CHUNK));
      if read.None? then Pass([], false)
      else if read.value == [] then Pass([], true)
      else
        var (found, next) := CarveChunk(read.value, 0, current, end, quota, sector, detect);
        var rest := CarveRange(disk, device, next, end, quota - |found|, sector, detect);
        Pass(found + rest.findings, rest.ok)
  }

  function Sector(sectorSize: u32): nat {
    if sectorSize == 0 then 512 else sectorSize
  }

  method CarveFilesFromReader(disk: seq<byte>, device: Reads, start: nat, length: nat, maxFiles: nat, sectorSize: u32,
                              detect: Detector, findings: seq<CarveFinding>)
    returns (files: Option<seq<CarvedFile>>, findings': seq<CarveFinding>)
    requires start + length < OFFSET_LIMIT
    ensures var pass := CarveRange(disk, device, start, start + length, maxFiles, Sector(sectorSize), detect);
            findings' == findings + pass.findings && files == if pass.ok then Some(FilesOf(pass.findings)) else None
  {
    hide CarveRange, CarveChunk, ReadSome;
    findings' := findings;
    var end := start + length;
    var sector := Sector(sectorSize);
    RangeTurn(disk, device, start, end, maxFiles, sector, detect);
    NoFiles();
    if length == 0 || maxFiles == 0 {
      return Some([]), findings';
    }
    var carved: seq<CarvedFile> := [];
    var current: nat := start;
    ghost var pass := CarveRange(disk, device, start, end, maxFiles, sector, detect);
    while current < end && |carved| < maxFiles
      invariant |carved| <= maxFiles && |findings'| == |findings| + |carved|
      invariant findings' + CarveRange(disk, device, current, end, maxFiles - |carved|, sector, detect).findings
                == findings + pass.findings
      invariant CarveRange(disk, device, current, end, maxFiles - |carved|, sector, detect).ok == pass.ok
      invariant findings <= findings' && carved == FilesOf(findings'[|findings|..])
      decreases end - current
    {
      RangeTurn(disk, device, current, end, maxFiles - |carved|, sector, detect);
      var read := ReadSome(disk, device, current, Min(end - current, CHUNK));
      if read.None? {
        assert findings' + [] == findings';
        return None, findings';
      }
      var slice := read.value;
      if |slice| == 0 {
        break;
      }
      ghost var before := findings';
      var next: nat;
      findings', carved, next :=
        CarveSlice(slice, current, end, maxFiles, sector, detect, findings', carved, |findings|);
      ConcatAssociative(before,
                        CarveChunk(slice, 0, current, end, maxFiles - (|before| - |findings|), sector, detect).0,
                        CarveRange(disk, device, next, end, maxFiles - |carved|, sector, detect).findings);
      current := next;
    }
    RangeTurn(disk, device, current, end, maxFiles - |carved|, sector, detect);
    assert findings' + [] == findings';
    DropPrefix(findings, pass.findings);
    files := Some(carved);
  }

  lemma DropPrefix<T>(a: seq<T>, b: seq<T>)
    ensures (a + b)[|a|..] == b
  {
  }

  lemma RangeTurn(disk: seq<byte>, device: Reads, current: nat, end: nat, quota: nat, sector: nat, detect: Detector)
    requires sector > 0
    ensures CarveRange(disk, device, current, end, quota, sector, detect) ==
      if current >= end || quota == 0 then Pass([], true) else
        var read := ReadSome(disk, device, current, Min(end - current, CHUNK));
        if read.None? then Pass([], false)
        else if read.value == [] then Pass([], true)
        else
          var chunk := CarveChunk(read.value, 0, current, end, quota, sector, detect);
          var rest := CarveRange(disk, device, chunk.1, end, quota - |chunk.0|, sector, detect);
          Pass(chunk.0 + rest.findings, rest.ok)
  {
    hide CarveChunk, ReadSome;
  }

  // The inner loop of `carve_files_from_reader`: one chunk, and where to read next.
  method CarveSlice(slice: seq<byte>, current: nat, end: nat, maxFiles: nat, sector: nat, detect: Detector,
                    findings: seq<CarveFinding>, carved: seq<CarvedFile>, ghost from: nat)
    returns (findings': seq<CarveFinding>, carved': seq<CarvedFile>, next: nat)
    requires sector > 0 && slice != [] && current + |slice| <= end
    requires |findings| == from + |carved| && |carved| <= maxFiles && carved == FilesOf(findings[from..])
    ensures var r := CarveChunk(slice, 0, current, end, maxFiles - |carved|, sector, detect);
            findings' == findings + r.0 && next == r.1
    ensures |findings'| == from + |carved'| && |carved'| <= maxFiles && carved' == FilesOf(findings'[from..])
  {
    hide FilesOf, Step, CarveChunk;
    findings', carved' := findings, carved;
    var i: nat := 0;
    ghost var all := CarveChunk(slice, 0, current, end, maxFiles - |carved|, sector, detect);
    while i + 16 <= |slice| && |carved'| < maxFiles
      invariant i < |slice| + sector && |carved'| <= maxFiles && |findings'| == from + |carved'|
      invariant findings' + CarveChunk(slice, i, current, end, maxFiles - |carved'|, sector, detect).0
                == findings + all.0
      invariant CarveChunk(slice, i, current, end, maxFiles - |carved'|, sector, detect).1 == all.1
      invariant carved' == FilesOf(findings'[from..])
      decreases |slice| + sector - i
    {
      ChunkTurn(slice, i, current, end, maxFiles - |carved'|, sector, detect);
      var header := detect(slice[i..]);
      if header.Some? {
        var size := Min(header.value.size, end - (current + i));
        var file := CarvedFile(header.value.fileType, current + i, size);
        next := current + i + Step(size, sector);
        PushFinding(findings', from, CarveFinding(file, header.value.executable));
        ghost var before := findings';
        findings' := findings' + [CarveFinding(file, header.value.executable)];
        carved' := carved' + [file];
        if next < current + |slice| {
          i := next - current;
          ConcatAssociative(before, [CarveFinding(file, header.value.executable)],
                            CarveChunk(slice, i, current, end, maxFiles - |carved'|, sector, detect).0);
          continue;
        } else {
          return;
        }
      }
      i := i + sector;
    }
    ChunkTurn(slice, i, current, end, maxFiles - |carved'|, sector, detect);
    next := current + |slice|;
  }

  lemma ChunkTurn(chunk: seq<byte>, i: nat, current: nat, end: nat, quota: nat, sector: nat, detect: Detector)
    requires sector > 0 && current + |chunk| <= end && chunk != [] && i < |chunk| + sector
    ensures CarveChunk(chunk, i, current, end, quota, sector, detect) ==
      if i + 16 > |chunk| || quota == 0 then ([], current + |chunk|) else
        var header := detect(chunk[i..]);
        if header.None? then CarveChunk(chunk, i + sector, current, end, quota, sector, detect) else
          var size := Min(header.value.size, end - (current + i));
          var found := CarveFinding(CarvedFile(header.value.fileType, current + i, size), header.value.executable);
          var next := current + i + Step(size, sector);
          if next < current + |chunk| then
            var rest := CarveChunk(chunk, next - current, current, end, quota - 1, sector, detect);
            ([found] + rest.0, rest.1)
          else ([found], next)
  {
    hide Step;
  }

  lemma PushFinding(findings: seq<CarveFinding>, from: nat, f: CarveFinding)
    requires from <= |findings|
    ensures FilesOf((findings + [f])[from..]) == FilesOf(findings[from..]) + [f.file]
  {
  }

  lemma FilesOfConcat(a: seq<CarveFinding>, b: seq<CarveFinding>)
    ensures FilesOf(a + b) == FilesOf(a) + FilesOf(b)
  {
  }

  /* What is carved lies in the range, in order, and was recognised */

  // Every file lies between `lo` and `hi`, and stays behind `next` unless nothing more is read.
  ghost predicate Sound(findings: seq<CarveFinding>, disk: seq<byte>, detect: Detector, lo: nat, next: nat, hi: nat) {
    var files := FilesOf(findings);
    && Ordered(files)
    && forall k | 0 <= k < |files| ::
         Within(files[k], lo, hi) && files[k].start < next && files[k].start + files[k].size <= next
           && Recognised(files[k], disk, detect, hi)
  }

  lemma SoundConcat(a: seq<CarveFinding>, b: seq<CarveFinding>, disk: seq<byte>, detect: Detector, lo: nat, mid: nat,
                    next: nat, hi: nat)
    requires Sound(a, disk, detect, lo, mid, hi) && Sound(b, disk, detect, mid, next, hi) && lo <= mid
    requires b == [] || mid <= next
    requires mid <= next
    ensures Sound(a + b, disk, detect, lo, next, hi)
  {
    hide Recognised;
    FilesOfConcat(a, b);
  }

  lemma {:induction false} ChunkSound(disk: seq<byte>, chunk: seq<byte>, i: nat, current: nat, end: nat, quota: nat,
                                      sector: nat, detect: Detector)
    requires 0 < sector < U32_LIMIT && current + |chunk| <= Min(|disk|, end) && chunk != [] && i < |chunk| + sector
             && end < OFFSET_LIMIT
    requires chunk == disk[current..current + |chunk|]
    ensures var r := CarveChunk(chunk, i, current, end, quota, sector, detect);
            Sound(r.0, disk, detect, current + i, r.1, end)
    decreases |chunk| + sector - i
  {
    hide Sound, Step, CarveChunk, Recognised, FilesOf;
    ChunkTurn(chunk, i, current, end, quota, sector, detect);
    NothingSound(disk, detect, current + i, current + |chunk|, end);
    if i + 16 <= |chunk| && quota > 0 {
      var header := detect(chunk[i..]);
      if header.None? {
        ChunkSound(disk, chunk, i + sector, current, end, quota, sector, detect);
        var r := CarveChunk(chunk, i + sector, current, end, quota, sector, detect);
        SoundEarlier(r.0, disk, detect, current + i, current + i + sector, r.1, end);
      } else {
        var size := Min(header.value.size, end - (current + i));
        var found := CarveFinding(CarvedFile(header.value.fileType, current + i, size), header.value.executable);
        var next := current + i + Step(size, sector);
        StepCovers(size, sector);
        RecognisedAt(found.file, disk, chunk, current, i, detect, end);
        OneSound(found, disk, detect, next, end);
        if next < current + |chunk| {
          ChunkSound(disk, chunk, next - current, current, end, quota - 1, sector, detect);
          var r := CarveChunk(chunk, next - current, current, end, quota - 1, sector, detect);
          ChunkMoves(chunk, next - current, current, end, quota - 1, sector, detect);
          SoundConcat([found], r.0, disk, detect, current + i, next, r.1, end);
        }
      }
    }
  }

  lemma NothingSound(disk: seq<byte>, detect: Detector, lo: nat, next: nat, hi: nat)
    ensures Sound([], disk, detect, lo, next, hi)
  {
  }

  lemma OneSound(f: CarveFinding, disk: seq<byte>, detect: Detector, next: nat, hi: nat)
    requires Recognised(f.file, disk, detect, hi) && f.file.start < hi && f.file.start + f.file.size <= Min(hi, next)
             && f.file.start < next
    ensures Sound([f], disk, detect, f.file.start, next, hi)
  {
    hide Recognised;
    assert FilesOf([f]) == [f.file];
  }

  lemma SoundEarlier(findings: seq<CarveFinding>, disk: seq<byte>, detect: Detector, lo: nat, lo': nat, next: nat,
                     hi: nat)
    requires Sound(findings, disk, detect, lo', next, hi) && lo <= lo'
    ensures Sound(findings, disk, detect, lo, next, hi)
  {
    hide Recognised;
  }

  // The next read starts no earlier than the byte looked at.
  lemma {:induction false} ChunkMoves(chunk: seq<byte>, i: nat, current: nat, end: nat, quota: nat, sector: nat,
                                      detect: Detector)
    requires sector > 0 && current + |chunk| <= end && chunk != [] && i < |chunk| + sector
    ensures CarveChunk(chunk, i, current, end, quota, sector, detect).1 >= current + |chunk|
    decreases |chunk| + sector - i
  {
    hide Step;
    if i + 16 <= |chunk| && quota > 0 {
      var header := detect(chunk[i..]);
      if header.None? {
        ChunkMoves(chunk, i + sector, current, end, quota, sector, detect);
      } else {
        var next := current + i + Step(Min(header.value.size, end - (current + i)), sector);
        if next < current + |chunk| {
          ChunkMoves(chunk, next - current, current, end, quota - 1, sector, detect);
        }
      }
    }
  }

  lemma RecognisedAt(file: CarvedFile, disk: seq<byte>, chunk: seq<byte>, current: nat, i: nat, detect: Detector,
                     end: nat)
    requires current + |chunk| <= |disk| && chunk == disk[current..current + |chunk|] && i + 16 <= |chunk|
    requires end >= current + i && detect(chunk[i..]).Some?
    requires var h := detect(chunk[i..]).value;
             file == CarvedFile(h.fileType, current + i, Min(h.size, end - (current + i)))
    ensures Recognised(file, disk, detect, end)
  {
    assert chunk[i..] == disk[current + i..current + |chunk|];
  }

  /**
   However the reads fall short or fail, what is carved from a range was recognised there, lies inside it
   and increases without overlap.
   */
  lemma {:induction false} CarveRangeSound(disk: seq<byte>, device: Reads, current: nat, end: nat, quota: nat,
                                           sector: nat, detect: Detector)
    requires 0 < sector < U32_LIMIT && end < OFFSET_LIMIT
    ensures Sound(CarveRange(disk, device, current, end, quota, sector, detect).findings, disk, detect, current,
                  Max(current, end), end)
    decreases end - current
  {
    hide Sound, CarveRange, CarveChunk, ReadSome;
    RangeTurn(disk, device, current, end, quota, sector, detect);
    NothingSound(disk, detect, current, Max(current, end), end);
    if current < end && quota > 0 {
      var read := ReadSome(disk, device, current, Min(end - current, CHUNK));
      if read.Some? && read.value != [] {
        var chunk := CarveChunk(read.value, 0, current, end, quota, sector, detect);
        ChunkSound(disk, read.value, 0, current, end, quota, sector, detect);
        CarveRangeSound(disk, device, chunk.1, end, quota - |chunk.0|, sector, detect);
        var rest := CarveRange(disk, device, chunk.1, end, quota - |chunk.0|, sector, detect).findings;
        if chunk.1 < end {
          SoundConcat(chunk.0, rest, disk, detect, current, chunk.1, end, end);
        } else {
          RangeTurn(disk, device, chunk.1, end, quota - |chunk.0|, sector, detect);
          assert chunk.0 + rest == chunk.0;
          SoundWithin(chunk.0, disk, detect, current, chunk.1, end);
        }
      }
    }
  }

  lemma SoundWithin(findings: seq<CarveFinding>, disk: seq<byte>, detect: Detector, lo: nat, next: nat, hi: nat)
    requires Sound(findings, disk, detect, lo, next, hi)
    ensures Sound(findings, disk, detect, lo, hi, hi)
  {
    hide Recognised;
  }

  /* Several ranges */

  // The first byte and the length.
  type ByteRange = (nat, nat)

  // At least `least` bytes of the range come before byte `reach`.
  predicate Reachable(r: ByteRange, least: nat, reach: nat) {
    r.0 + least <= Min(r.0 + r.1, reach)
  }

  // Headers are sixteen bytes, so ranges with fewer bytes on the disk yield nothing.
  predicate InSomeRange(c: CarvedFile, ranges: seq<ByteRange>, size: nat) {
    exists r | 0 <= r < |ranges| :: Reachable(ranges[r], 16, size) && Within(c, ranges[r].0, ranges[r].0 + ranges[r].1)
  }

  lemma {:induction false} ShortRangeEmpty(disk: seq<byte>, device: Reads, current: nat, end: nat, quota: nat,
                                           sector: nat, detect: Detector)
    requires sector > 0 && end < current + 16
    ensures CarveRange(disk, device, current, end, quota, sector, detect).findings == []
    decreases end - current
  {
    hide ReadSome;
    if current < end && quota > 0 {
      var read := ReadSome(disk, device, current, Min(end - current, CHUNK));
      if read.Some? && read.value != [] {
        ShortRangeEmpty(disk, device, current + |read.value|, end, quota, sector, detect);
      }
    }
  }

  predicate Increasing(ranges: seq<ByteRange>) {
    forall i, j | 0 <= i < j < |ranges| :: ranges[i].0 + ranges[i].1 <= ranges[j].0
  }

  // The ranges one after another, until the quota is used up or a read fails; `device` says how each reads.
  function CarveAll(disk: seq<byte>, device: nat -> Reads, ranges: seq<ByteRange>, k: nat, quota: nat, sector: nat,
                    detect: Detector): (r: Pass)
    requires sector > 0 && k <= |ranges|
    ensures |r.findings| <= quota
    decreases |ranges| - k
  {
    if k == |ranges| || quota == 0 then Pass([], true) else
      var pass := CarveRange(disk, device(k), ranges[k].0, ranges[k].0 + ranges[k].1, quota, sector, detect);
      if !pass.ok then pass else
        var rest := CarveAll(disk, device, ranges, k + 1, quota - |pass.findings|, sector, detect);
        Pass(pass.findings + rest.findings, rest.ok)
  }

  method CarveUnallocatedSpace(disk: seq<byte>, device: nat -> Reads, ranges: seq<ByteRange>, maxFiles: nat,
                               sectorSize: u32, detect: Detector, findings: seq<CarveFinding>)
    returns (files: Option<seq<CarvedFile>>, findings': seq<CarveFinding>)
    requires forall k | 0 <= k < |ranges| :: ranges[k].0 + ranges[k].1 < OFFSET_LIMIT
    ensures var pass := CarveAll(disk, device, ranges, 0, maxFiles, Sector(sectorSize), detect);
            findings' == findings + pass.findings && files == if pass.ok then Some(FilesOf(pass.findings)) else None
  {
    hide CarveRange, CarveAll, FilesOf;
    findings' := findings;
    var total: seq<CarvedFile> := [];
    ghost var sector := Sector(sectorSize);
    ghost var all := CarveAll(disk, device, ranges, 0, maxFiles, sector, detect);
    ghost var done: seq<CarveFinding> := [];
    NoFiles();
    var k := 0;
    while k < |ranges|
      invariant 0 <= k <= |ranges| && |total| == |done| <= maxFiles
      invariant findings' == findings + done && total == FilesOf(done)
      invariant done + CarveAll(disk, device, ranges, k, maxFiles - |total|, sector, detect).findings == all.findings
      invariant CarveAll(disk, device, ranges, k, maxFiles - |total|, sector, detect).ok == all.ok
    {
      RangesTurn(disk, device, ranges, k, maxFiles - |total|, sector, detect);
      if |total| >= maxFiles {
        break;
      }
      ghost var pass := CarveRange(disk, device(k), ranges[k].0, ranges[k].0 + ranges[k].1, maxFiles - |total|, sector,
                                   detect);
      var carved;
      carved, findings' := CarveFilesFromReader(disk, device(k), ranges[k].0, ranges[k].1, maxFiles - |total|,
                                                sectorSize, detect, findings');
      ConcatAssociative(findings, done, pass.findings);
      if carved.None? {
        return None, findings';
      }
      FilesOfConcat(done, pass.findings);
      FilesCount(pass.findings);
      ghost var rest := CarveAll(disk, device, ranges, k + 1, maxFiles - |total| - |pass.findings|, sector,
                                 detect).findings;
      ConcatAssociative(done, pass.findings, rest);
      done := done + pass.findings;
      total := total + carved.value;
      k := k + 1;
    }
    RangesTurn(disk, device, ranges, k, maxFiles - |total|, sector, detect);
    assert done + [] == done;
    files := Some(total);
  }

  lemma RangesTurn(disk: seq<byte>, device: nat -> Reads, ranges: seq<ByteRange>, k: nat, quota: nat, sector: nat,
                   detect: Detector)
    requires sector > 0 && k <= |ranges|
    ensures CarveAll(disk, device, ranges, k, quota, sector, detect) ==
      if k == |ranges| || quota == 0 then Pass([], true) else
        var pass := CarveRange(disk, device(k), ranges[k].0, ranges[k].0 + ranges[k].1, quota, sector, detect);
        if !pass.ok then pass else
          var rest := CarveAll(disk, device, ranges, k + 1, quota - |pass.findings|, sector, detect);
          Pass(pass.findings + rest.findings, rest.ok)
  {
    hide CarveRange;
  }

  lemma NoFiles()
    ensures FilesOf([]) == []
  {
  }

  lemma FilesCount(findings: seq<CarveFinding>)
    ensures |FilesOf(findings)| == |findings|
  {
  }

  lemma OrderedConcat(a: seq<CarvedFile>, b: seq<CarvedFile>, pos: nat)
    requires Ordered(a) && Ordered(b)
    requires forall k | 0 <= k < |a| :: a[k].start < pos && a[k].start + a[k].size <= pos
    requires forall k | 0 <= k < |b| :: pos <= b[k].start
    ensures Ordered(a + b)
  {
  }

  /**
   Over all ranges: every carved file lies inside one of them, and on increasing ranges the files increase without
   overlap.
   */
  lemma {:induction false} CarveAllSound(disk: seq<byte>, device: nat -> Reads, ranges: seq<ByteRange>, k: nat,
                                         quota: nat, sector: nat, detect: Detector)
    requires 0 < sector < U32_LIMIT && k <= |ranges|
             && forall k | 0 <= k < |ranges| :: ranges[k].0 + ranges[k].1 < OFFSET_LIMIT
    ensures var files := FilesOf(CarveAll(disk, device, ranges, k, quota, sector, detect).findings);
            && (forall i | 0 <= i < |files| :: InSomeRange(files[i], ranges, |disk|))
            && (Increasing(ranges) ==> Ordered(files) && forall i | 0 <= i < |files| ::
                  k < |ranges| && ranges[k].0 <= files[i].start)
    decreases |ranges| - k
  {
    hide CarveRange, CarveAll, Sound, FilesOf, Ordered, Within, Increasing;
    RangesTurn(disk, device, ranges, k, quota, sector, detect);
    NothingInRanges();
    if k < |ranges| && quota > 0 {
      var lo, hi := ranges[k].0, ranges[k].0 + ranges[k].1;
      var pass := CarveRange(disk, device(k), lo, hi, quota, sector, detect);
      RangeInRanges(disk, device(k), ranges, k, quota, sector, detect);
      if pass.ok {
        CarveAllSound(disk, device, ranges, k + 1, quota - |pass.findings|, sector, detect);
        var rest := CarveAll(disk, device, ranges, k + 1, quota - |pass.findings|, sector, detect).findings;
        FilesOfConcat(pass.findings, rest);
        if Increasing(ranges) {
          if k + 1 < |ranges| {
            IncreasingNext(ranges, k);
          }
          JoinRanges(FilesOf(pass.findings), FilesOf(rest), lo, hi);
        }
      }
    }
  }

  lemma NothingInRanges()
    ensures Ordered(FilesOf([])) && FilesOf([]) == []
  {
  }

  // What one range yields, seen among all ranges.
  lemma RangeInRanges(disk: seq<byte>, device: Reads, ranges: seq<ByteRange>, k: nat, quota: nat, sector: nat,
                      detect: Detector)
    requires 0 < sector < U32_LIMIT && k < |ranges| && ranges[k].0 + ranges[k].1 < OFFSET_LIMIT
    ensures var lo, hi := ranges[k].0, ranges[k].0 + ranges[k].1;
            var files := FilesOf(CarveRange(disk, device, lo, hi, quota, sector, detect).findings);
            Ordered(files) && forall i | 0 <= i < |files| ::
                                 lo <= files[i].start && Within(files[i], lo, hi)
                                   && InSomeRange(files[i], ranges, |disk|)
  {
    hide CarveRange, Recognised, Ordered, FilesOf;
    var lo, hi := ranges[k].0, ranges[k].0 + ranges[k].1;
    CarveRangeSound(disk, device, lo, hi, quota, sector, detect);
    NothingInRanges();
    if ranges[k].1 < 16 {
      ShortRangeEmpty(disk, device, lo, hi, quota, sector, detect);
    }
    var files := FilesOf(CarveRange(disk, device, lo, hi, quota, sector, detect).findings);
    forall i | 0 <= i < |files|
      ensures InSomeRange(files[i], ranges, |disk|)
    {
      RecognisedOnDisk(files[i], disk, detect, hi);
    }
  }

  lemma RecognisedOnDisk(c: CarvedFile, disk: seq<byte>, detect: Detector, hi: nat)
    requires Recognised(c, disk, detect, hi)
    ensures c.start + 16 <= |disk|
  {
  }

  lemma IncreasingNext(ranges: seq<ByteRange>, k: nat)
    requires Increasing(ranges) && k + 1 < |ranges|
    ensures ranges[k].0 + ranges[k].1 <= ranges[k + 1].0
  {
  }

  lemma JoinRanges(a: seq<CarvedFile>, b: seq<CarvedFile>, lo: nat, hi: nat)
    requires Ordered(a) && (forall i | 0 <= i < |a| :: Within(a[i], lo, hi))
    requires Ordered(b) && (forall i | 0 <= i < |b| :: hi <= b[i].start) && lo <= hi
    ensures Ordered(a + b) && forall i | 0 <= i < |a + b| :: lo <= (a + b)[i].start
  {
    OrderedConcat(a, b, hi);
  }
}
