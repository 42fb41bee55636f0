/**
 MBR, EBR and GPT parsing (src/disk/partition.rs). A disk is the sequence of its bytes; `seek` and
 `read_exact` are one bounds-checked slice. Decoding UTF-16 names is library code and a parameter.
 */
module Partitions {
  import opened Bytes
  import opened Crc

  datatype Partition = Partition(
    index: nat,
    startLba: nat,
    endLba: nat,
    totalSectors: nat,
    typeGuid: Option<string>,
    typeByte: Option<byte>,
    bootable: bool,
    name: Option<string>)

  datatype TableType = Mbr | Gpt | Hybrid | NoTable

  datatype DiskLayout = DiskLayout(
    sectorSize: nat,
    totalSectors: nat,
    tableType: TableType,
    partitions: seq<Partition>,
    hasProtectiveMbr: bool,
    primaryGptValid: bool,
    backupGptValid: bool,
    gptDiffersFromBackup: bool,
    backupGptLbaMismatch: bool,
    mbrPartitionCount: nat,
    gptPartitionCount: nat)

  datatype StageError = Parse | Io

  datatype Result<+T> = Ok(value: T) | Err(error: StageError)

  // String::from_utf16, on the code units before the first zero.
  type Utf16 = seq<nat> -> Option<string>

  // The little-endian field of `n` bytes at `off`.
  function Field(b: seq<byte>, off: nat, n: nat): nat
    requires off + n <= |b|
  {
    Le(b[off..off + n])
  }

  /* MBR */

  datatype MbrInfo = MbrInfo(hasSignature: bool, partitions: seq<Partition>, hasProtective: bool)

  const NO_MBR := MbrInfo(false, [], false)
  const MAX_LOGICAL := 64

  predicate BootSignature(sector: seq<byte>)
    requires |sector| >= 512
  {
    sector[510] == 0x55 && sector[511] == 0xAA
  }

  predicate IsExtendedType(t: byte) {
    t == 0x05 || t == 0x0F || t == 0x85
  }

  function MbrEntry(sector: seq<byte>, i: nat): (e: seq<byte>)
    requires |sector| >= 512 && i < 4
    ensures |e| == 16
  {
    sector[446 + i * 16..446 + i * 16 + 16]
  }

  function PrimaryPartition(entry: seq<byte>, i: nat): Partition
    requires |entry| == 16
  {
    var start, count := Field(entry, 8, 4), Field(entry, 12, 4);
    Partition(i + 1, start, if count > 0 then SatSub(SatAdd(start, count), 1) else start, count,
              None, Some(entry[4]), entry[0] == 0x80, None)
  }

  // The used slots among the primary entries `i`, `i + 1`, ... 3.
  function PrimaryPartitions(sector: seq<byte>, i: nat): seq<Partition>
    requires |sector| >= 512 && i <= 4
    decreases 4 - i
  {
    if i == 4 then [] else
      var e := MbrEntry(sector, i);
      (if e[4] != 0 then [PrimaryPartition(e, i)] else []) + PrimaryPartitions(sector, i + 1)
  }

  predicate HasProtective(sector: seq<byte>)
    requires |sector| >= 512
  {
    exists i | 0 <= i < 4 :: MbrEntry(sector, i)[4] == 0xEE
  }

  datatype Extended = Extended(base: nat, sectors: nat)

  function ExtendedOf(ps: seq<Partition>): seq<Extended> {
    if ps == [] then [] else
      (if ps[0].typeByte.Some? && IsExtendedType(ps[0].typeByte.value)
       then [Extended(ps[0].startLba, ps[0].totalSectors)] else []) + ExtendedOf(ps[1..])
  }

  // The logical partition described by the EBR at `lba`, if its first slot is used.
  function LogicalPartition(ebr: seq<byte>, lba: nat, index: nat): seq<Partition>
    requires |ebr| == 512
  {
    var e := ebr[446..462];
    var start, count := SatAdd(lba, Field(e, 8, 4)), Field(e, 12, 4);
    if e[4] != 0 && count > 0
    then [Partition(index, start, SatSub(SatAdd(start, count), 1), count, None, Some(e[4]), e[0] == 0x80, None)]
    else []
  }

  // Where the EBR chain goes next, if it goes on.
  function NextEbr(ebr: seq<byte>, ext: Extended): Option<nat>
    requires |ebr| == 512
  {
    var e := ebr[462..478];
    var rel := Field(e, 8, 4);
    var next := SatAdd(ext.base, rel);
    if IsExtendedType(e[4]) && rel > 0 && next < SatAdd(ext.base, ext.sectors) then Some(next) else None
  }

  // The logical partitions of one extended container, from the EBR at `lba` on.
  function EbrWalk(disk: seq<byte>, ss: nat, ext: Extended, lba: nat, visited: set<nat>, index: nat): seq<Partition>
    decreases MAX_LOGICAL - |visited|, 1
  {
    if |visited| >= MAX_LOGICAL || lba in visited then [] else
      var read := ReadExact(disk, SatMul(lba, ss), 512);
      if read.None? || !BootSignature(read.value) then [] else
        var found := LogicalPartition(read.value, lba, index);
        var next := NextEbr(read.value, ext);
        found + EbrRest(disk, ss, ext, read.value, lba, visited, index + |found|)
  }

  // What follows the EBR `ebr` found at `lba`.
  function EbrRest(disk: seq<byte>, ss: nat, ext: Extended, ebr: seq<byte>, lba: nat, visited: set<nat>,
                   index: nat): seq<Partition>
    requires |ebr| == 512 && |visited| < MAX_LOGICAL && lba !in visited
    decreases MAX_LOGICAL - |visited|, 0
  {
    var next := NextEbr(ebr, ext);
    if next.None? then [] else EbrWalk(disk, ss, ext, next.value, visited + {lba}, index)
  }

  function EbrWalks(disk: seq<byte>, ss: nat, exts: seq<Extended>, index: nat): seq<Partition> {
    if exts == [] then [] else
      var found := EbrWalk(disk, ss, exts[0], exts[0].base, {}, index);
      found + EbrWalks(disk, ss, exts[1..], index + |found|)
  }

  function MbrOf(disk: seq<byte>, ss: nat): Result<MbrInfo> {
    var read := ReadExact(disk, 0, ss);
    if read.None? then Err(Io)
    else if ss < 512 || !BootSignature(read.value) then Ok(NO_MBR)
    else
      var primary := PrimaryPartitions(read.value, 0);
      Ok(MbrInfo(true, primary + EbrWalks(disk, ss, ExtendedOf(primary), 5), HasProtective(read.value)))
  }

  method ParseMbr(disk: seq<byte>, ss: nat) returns (r: Result<MbrInfo>)
    ensures r == MbrOf(disk, ss)
  {
    hide EbrWalk, PrimaryPartitions, ExtendedOf, HasProtective;
    var read := ReadExact(disk, 0, ss);
    if read.None? {
      return Err(Io);
    }
    var sector0 := read.value;
    if |sector0| < 512 {
      return Ok(NO_MBR);
    }
    if sector0[510] != 0x55 || sector0[511] != 0xAA {
      return Ok(NO_MBR);
    }

    var partitions, hasProtective := ReadPrimaryEntries(sector0);
    var extended := CollectExtended(partitions);
    ghost var primary := partitions;
    var nextIndex: nat := 5;
    for k := 0 to |extended|
      invariant partitions + EbrWalks(disk, ss, extended[k..], nextIndex) == primary + EbrWalks(disk, ss, extended, 5)
    {
      var added;
      added, nextIndex := WalkEbrs(disk, ss, extended[k], nextIndex);
      assert extended[k..][1..] == extended[k + 1..];
      ConcatAssociative(partitions, added, EbrWalks(disk, ss, extended[k + 1..], nextIndex));
      partitions := partitions + added;
    }
    assert partitions == primary + EbrWalks(disk, ss, extended, 5) by {
      assert extended[|extended|..] == [];
    }
    r := Ok(MbrInfo(true, partitions, hasProtective));
  }

  lemma PrimaryTurn(sector: seq<byte>, i: nat)
    requires |sector| >= 512 && i <= 4
    ensures PrimaryPartitions(sector, i) == if i == 4 then [] else
      (if MbrEntry(sector, i)[4] != 0 then [PrimaryPartition(MbrEntry(sector, i), i)] else [])
        + PrimaryPartitions(sector, i + 1)
  {
    hide PrimaryPartition;
  }

  // The first loop of `parse_mbr`.
  method ReadPrimaryEntries(sector0: seq<byte>) returns (partitions: seq<Partition>, hasProtective: bool)
    requires |sector0| >= 512
    ensures partitions == PrimaryPartitions(sector0, 0)
    ensures hasProtective == HasProtective(sector0)
  {
    hide PrimaryPartition, MbrEntry, PrimaryPartitions;
    assert PrimaryPartitions(sector0, 4) == [] by {
      PrimaryTurn(sector0, 4);
    }
    partitions, hasProtective := [], false;
    for i := 0 to 4
      invariant partitions + PrimaryPartitions(sector0, i) == PrimaryPartitions(sector0, 0)
      invariant hasProtective <==> exists j | 0 <= j < i :: MbrEntry(sector0, j)[4] == 0xEE
    {
      PrimaryTurn(sector0, i);
      ghost var before := partitions;
      var entry := MbrEntry(sector0, i);
      if entry[4] == 0xEE {
        hasProtective := true;
      }
      if entry[4] != 0x00 {
        partitions := partitions + [PrimaryPartition(entry, i)];
      }
      ConcatAssociative(before, if entry[4] != 0 then [PrimaryPartition(entry, i)]
                        else [], PrimaryPartitions(sector0, i + 1));
    }
  }

  // The second loop of `parse_mbr`.
  method CollectExtended(partitions: seq<Partition>) returns (extended: seq<Extended>)
    ensures extended == ExtendedOf(partitions)
  {
    extended := [];
    for k := 0 to |partitions|
      invariant extended + ExtendedOf(partitions[k..]) == ExtendedOf(partitions)
    {
      var p := partitions[k];
      if p.typeByte.Some? && IsExtendedType(p.typeByte.value) {
        extended := extended + [Extended(p.startLba, p.totalSectors)];
      }
      assert partitions[k..][1..] == partitions[k + 1..];
    }
  }

  // One turn of the walk: it stops, or it yields this EBR's partition and goes on.
  lemma EbrTurn(disk: seq<byte>, ss: nat, ext: Extended, lba: nat, visited: set<nat>, index: nat)
    ensures var w := EbrWalk(disk, ss, ext, lba, visited, index);
            var read := ReadExact(disk, SatMul(lba, ss), 512);
            if |visited| >= MAX_LOGICAL || lba in visited || read.None? || !BootSignature(read.value) then w == []
            else
              var found := LogicalPartition(read.value, lba, index);
              var next := NextEbr(read.value, ext);
              w == found + if next.None? then []
                else EbrWalk(disk, ss, ext, next.value, visited + {lba}, index + |found|)
  {
    hide LogicalPartition, NextEbr, SatMul;
  }

  // The inner loop of `parse_mbr`.
  method WalkEbrs(disk: seq<byte>, ss: nat, ext: Extended, index: nat) returns (added: seq<Partition>, nextIndex: nat)
    ensures added == EbrWalk(disk, ss, ext, ext.base, {}, index)
    ensures nextIndex == index + |added|
  {
    hide Field, SatAdd, SatSub, SatMul, IsExtendedType, EbrWalk;
    added, nextIndex := [], index;
    var current: nat := ext.base;
    var visited: set<nat> := {};
    while |visited| < MAX_LOGICAL && current !in visited
      invariant nextIndex == index + |added|
      invariant added + EbrWalk(disk, ss, ext, current, visited, nextIndex)
                == EbrWalk(disk, ss, ext, ext.base, {}, index)
      decreases MAX_LOGICAL - |visited|
    {
      EbrTurn(disk, ss, ext, current, visited, nextIndex);
      var read := ReadExact(disk, SatMul(current, ss), 512);
      if read.None? {
        return;
      }
      var ebr := read.value;
      if ebr[510] != 0x55 || ebr[511] != 0xAA {
        return;
      }
      ghost var before, found, next := added, LogicalPartition(ebr, current, nextIndex), NextEbr(ebr, ext);
      ghost var rest := if next.None? then []
        else EbrWalk(disk, ss, ext, next.value, visited + {current}, nextIndex + |found|);
      ConcatAssociative(added, found, rest);
      visited := visited + {current};
      var entry0 := ebr[446..462];
      var sectors := Field(entry0, 12, 4);
      if entry0[4] != 0x00 && sectors > 0 {
        var start := SatAdd(current, Field(entry0, 8, 4));
        added := added + [Partition(nextIndex, start, SatSub(SatAdd(start, sectors), 1), sectors,
                                    None, Some(entry0[4]), entry0[0] == 0x80, None)];
        nextIndex := nextIndex + 1;
      }
      assert added == before + found;
      var entry1 := ebr[462..478];
      var rel := Field(entry1, 8, 4);
      if IsExtendedType(entry1[4]) && rel > 0 {
        current := SatAdd(ext.base, rel);
        if current >= SatAdd(ext.base, ext.sectors) {
          return;
        }
      } else {
        return;
      }
    }
    EbrTurn(disk, ss, ext, current, visited, nextIndex);
  }

  /* GPT */

  datatype GptCopy = GptCopy(valid: bool, partitions: seq<Partition>, backupLba: nat)

  const EFI_PART: seq<byte> := [0x45, 0x46, 0x49, 0x20, 0x50, 0x41, 0x52, 0x54]

  // The header with its checksum field zeroed.
  function ChecksumInput(header: seq<byte>, size: nat): seq<byte>
    requires 92 <= size <= |header|
  {
    header[..16] + [0, 0, 0, 0] + header[20..size]
  }

  predicate HeaderIntact(h: seq<byte>) {
    && |h| >= 92
    && h[0..8] == EFI_PART
    && 92 <= Field(h, 12, 4) <= |h|
    && Crc32(ChecksumInput(h, Field(h, 12, 4))) == Field(h, 16, 4)
  }

  function BackupLbaOf(h: seq<byte>): nat requires |h| >= 92 { Field(h, 32, 8) }
  function EntriesLbaOf(h: seq<byte>): nat requires |h| >= 92 { Field(h, 72, 8) }
  function EntryCountOf(h: seq<byte>): nat requires |h| >= 92 { Field(h, 80, 4) }
  function EntrySizeOf(h: seq<byte>): nat requires |h| >= 92 { Field(h, 84, 4) }
  function EntriesCrcOf(h: seq<byte>): nat requires |h| >= 92 { Field(h, 88, 4) }

  // The entry array the header points at, if its geometry is accepted and it can be read.
  function EntryArray(disk: seq<byte>, h: seq<byte>, ss: nat): (r: Option<seq<byte>>)
    requires |h| >= 92
    ensures r.Some? ==> EntrySizeOf(h) >= 128 && |r.value| == EntryCountOf(h) * EntrySizeOf(h)
  {
    if EntrySizeOf(h) < 128 || EntryCountOf(h) > 1024 then None
    else ReadExact(disk, SatMul(EntriesLbaOf(h), ss), EntryCountOf(h) * EntrySizeOf(h))
  }

  function GptCopyAt(disk: seq<byte>, lba: nat, ss: nat, utf16: Utf16): GptCopy {
    var read := ReadExact(disk, SatMul(lba, ss), ss);
    if read.None? || !HeaderIntact(read.value) then GptCopy(false, [], 0) else
      var h := read.value;
      var entries := EntryArray(disk, h, ss);
      if entries.None? || Crc32(entries.value) != EntriesCrcOf(h) then GptCopy(false, [], BackupLbaOf(h))
      else GptCopy(true, EntryPartitions(entries.value, EntrySizeOf(h), EntryCountOf(h), 0, utf16), BackupLbaOf(h))
  }

  function HexDigit(n: nat): char
    requires n < 16
  {
    if n < 10 then '0' + n as char else 'a' + (n - 10) as char
  }

  function Hex(b: byte): string {
    [HexDigit(b / 16), HexDigit(b % 16)]
  }

  // The mixed-endian text form of a GUID.
  function GuidText(g: seq<byte>): string
    requires |g| == 16
  {
    Hex(g[3]) + Hex(g[2]) + Hex(g[1]) + Hex(g[0]) + "-" + Hex(g[5]) + Hex(g[4]) + "-" + Hex(g[7]) + Hex(g[6])
    + "-" + Hex(g[8]) + Hex(g[9]) + "-" + Hex(g[10]) + Hex(g[11]) + Hex(g[12]) + Hex(g[13]) + Hex(g[14]) + Hex(g[15])
  }

  // The little-endian 16-bit units of `raw`, up to the first zero.
  function NameUnits(raw: seq<byte>): seq<nat> {
    if |raw| < 2 then [] else
      var u := Le(raw[..2]);
      if u == 0 then [] else [u] + NameUnits(raw[2..])
  }

  predicate IsUnused(entry: seq<byte>)
    requires |entry| >= 128
  {
    forall k | 0 <= k < 16 :: entry[k] == 0
  }

  function GptPartition(entry: seq<byte>, i: nat, utf16: Utf16): Partition
    requires |entry| >= 128
  {
    var start, end := Field(entry, 32, 8), Field(entry, 40, 8);
    Partition(i + 1, start, end, if end >= start then SatAdd(SatSub(end, start), 1) else 0,
              Some(GuidText(entry[0..16])), None, false, utf16(NameUnits(entry[56..128])))
  }

  function EntryAt(entries: seq<byte>, size: nat, i: nat): (e: seq<byte>)
    requires (i + 1) * size <= |entries|
    ensures |e| == size
  {
    assert (i + 1) * size == i * size + size;
    entries[i * size..i * size + size]
  }

  // The used entries among `i`, `i + 1`, ... `count - 1`.
  function EntryPartitions(entries: seq<byte>, size: nat, count: nat, i: nat, utf16: Utf16): seq<Partition>
    requires size >= 128 && |entries| == count * size && i <= count
    decreases count - i
  {
    if i == count then [] else
      assert (i + 1) * size <= count * size;
      var e := EntryAt(entries, size, i);
      (if IsUnused(e) then [] else [GptPartition(e, i, utf16)]) + EntryPartitions(entries, size, count, i + 1, utf16)
  }

  method ParseGptHeaderAndEntries(disk: seq<byte>, lba: nat, ss: nat, utf16: Utf16) returns (r: GptCopy)
    ensures r == GptCopyAt(disk, lba, ss, utf16)
  {
    hide Crc32, Le, SatMul, EntryPartitions;
    var read := ReadExact(disk, SatMul(lba, ss), ss);
    if read.None? {
      return GptCopy(false, [], 0);
    }
    var header := read.value;
    if |header| < 92 || header[0..8] != EFI_PART {
      return GptCopy(false, [], 0);
    }
    var headerSize := Field(header, 12, 4);
    if headerSize < 92 || headerSize > |header| {
      return GptCopy(false, [], 0);
    }
    var copy := header[..headerSize];
    copy := copy[16 := 0][17 := 0][18 := 0][19 := 0];
    assert copy == ChecksumInput(header, headerSize);
    var headerCrc := ComputeCrc32(copy);
    if headerCrc != Field(header, 16, 4) {
      return GptCopy(false, [], 0);
    }
    var backupLba := Field(header, 32, 8);
    var count, size := Field(header, 80, 4), Field(header, 84, 4);
    if size < 128 || count > 1024 {
      return GptCopy(false, [], backupLba);
    }
    var read2 := ReadExact(disk, SatMul(Field(header, 72, 8), ss), count * size);
    if read2.None? {
      return GptCopy(false, [], backupLba);
    }
    var entries := read2.value;
    var entriesCrc := ComputeCrc32(entries);
    if entriesCrc != Field(header, 88, 4) {
      return GptCopy(false, [], backupLba);
    }
    var partitions := ReadGptEntries(entries, size, count, utf16);
    r := GptCopy(true, partitions, backupLba);
  }

  // The entry loop of `parse_gpt_header_and_entries`.
  method ReadGptEntries(entries: seq<byte>, size: nat, count: nat, utf16: Utf16) returns (partitions: seq<Partition>)
    requires size >= 128 && |entries| == count * size
    ensures partitions == EntryPartitions(entries, size, count, 0, utf16)
  {
    hide GptPartition, EntryAt, IsUnused;
    partitions := [];
    for i := 0 to count
      invariant partitions + EntryPartitions(entries, size, count, i, utf16)
                == EntryPartitions(entries, size, count, 0, utf16)
    {
      assert (i + 1) * size <= count * size;
      var entry := EntryAt(entries, size, i);
      if IsUnused(entry) {
        continue;
      }
      ConcatAssociative(partitions, [GptPartition(entry, i, utf16)],
                        EntryPartitions(entries, size, count, i + 1, utf16));
      partitions := partitions + [GptPartition(entry, i, utf16)];
    }
  }

  datatype GptInfo = GptInfo(primaryValid: bool, backupValid: bool, differs: bool, lbaMismatch: bool,
                             partitions: seq<Partition>)

  predicate Differ(p: GptCopy, b: GptCopy) {
    p.valid && b.valid && p.partitions != b.partitions
  }

  function GptOf(disk: seq<byte>, totalSectors: nat, ss: nat, utf16: Utf16): GptInfo {
    if totalSectors < 3 then GptInfo(false, false, false, false, []) else
      var p := GptCopyAt(disk, 1, ss, utf16);
      var b := GptCopyAt(disk, totalSectors - 1, ss, utf16);
      GptInfo(p.valid, b.valid, Differ(p, b), p.valid && p.backupLba != totalSectors - 1,
              if p.valid then p.partitions else if b.valid then b.partitions else [])
  }

  function LayoutOf(mbr: MbrInfo, gpt: GptInfo, totalSectors: nat, ss: nat): DiskLayout {
    var table :=
      if gpt.primaryValid || gpt.backupValid then
        if exists k | 0 <= k < |mbr.partitions| :: mbr.partitions[k].typeByte != Some(0xEE) then Hybrid else Gpt
      else if mbr.hasSignature && |mbr.partitions| > 0 then Mbr
      else NoTable;
    var partitions := match table case Gpt => gpt.partitions case Hybrid => gpt.partitions
                      case Mbr => mbr.partitions case NoTable => [];
    DiskLayout(ss, totalSectors, table, partitions, mbr.hasProtective, gpt.primaryValid, gpt.backupValid,
               gpt.differs, gpt.lbaMismatch, |mbr.partitions|, |gpt.partitions|)
  }

  function DiskLayoutOf(disk: seq<byte>, totalBytes: nat, ss: nat, utf16: Utf16): Result<DiskLayout> {
    if ss == 0 || totalBytes < ss then Err(Parse) else
      var mbr := MbrOf(disk, ss);
      if mbr.Err? then Err(mbr.error)
      else Ok(LayoutOf(mbr.value, GptOf(disk, totalBytes / ss, ss, utf16), totalBytes / ss, ss))
  }

  method ParseDiskLayout(disk: seq<byte>, totalBytes: nat, ss: nat, utf16: Utf16) returns (r: Result<DiskLayout>)
    ensures r == DiskLayoutOf(disk, totalBytes, ss, utf16)
  {
    hide GptCopyAt, MbrOf, LayoutOf;
    if ss == 0 || totalBytes < ss {
      return Err(Parse);
    }
    var totalSectors := totalBytes / ss;
    var mbr := ParseMbr(disk, ss);
    if mbr.Err? {
      return Err(mbr.error);
    }
    var gpt := GptInfo(false, false, false, false, []);
    if totalSectors >= 3 {
      var primary := ParseGptHeaderAndEntries(disk, 1, ss, utf16);
      var backup := ParseGptHeaderAndEntries(disk, totalSectors - 1, ss, utf16);
      gpt := GptInfo(primary.valid, backup.valid,
                     primary.valid && backup.valid && primary.partitions != backup.partitions,
                     primary.valid && primary.backupLba != totalSectors - 1,
                     if primary.valid then primary.partitions else if backup.valid then backup.partitions else []);
    }
    r := Ok(LayoutOf(mbr.value, gpt, totalSectors, ss));
  }
}
