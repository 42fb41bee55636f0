/** Which sectors of a written disk are reported as free: none that a table stands in, and none a partition holds. */
module GapImage {
  import opened Bytes
  import opened Partitions
  import opened PartitionProofs
  import opened FreeSpace
  import GptImage
  import MbrImage

  /* GPT disks */

  // The sector holds the protective record, a header, or bytes of an entry array.
  predicate TableSector(d: GptImage.GptDisk, lba: nat)
    requires d.sectors >= 35
  {
    || lba == 0 || lba == 1 || lba + 1 == d.sectors
    || GptImage.Lba(d, 2) <= GptImage.Lba(d, lba) < GptImage.Lba(d, 2) + 16384
    || GptImage.Lba(d, d.sectors - 33) <= GptImage.Lba(d, lba) < GptImage.Lba(d, d.sectors - 33) + 16384
  }

  // Some entry of the table holds the sector.
  predicate EntryHolds(t: GptImage.Table, lba: nat) {
    exists i | 0 <= i < |t| && t[i].Some? :: t[i].value.startLba <= lba <= t[i].value.endLba
  }

  predicate NoEntries(t: GptImage.Table) {
    forall i | 0 <= i < |t| :: t[i].None?
  }

  lemma {:induction false} DescribedHold(t: GptImage.Table, i: nat, utf16: Utf16, lba: nat)
    requires GptImage.ValidTable(t) && i <= |t|
    ensures Allocated(GptImage.DescribedFrom(t, i, utf16), lba)
            <==> exists k :: i <= k < |t| && t[k].Some? && t[k].value.startLba <= lba <= t[k].value.endLba
    ensures GptImage.DescribedFrom(t, i, utf16) == [] <==> forall k | i <= k < |t| :: t[k].None?
    decreases |t| - i
  {
    hide GptImage.ValidEntry, GptImage.Described, Allocated;
    if i == |t| {
      NothingAllocated(lba);
    } else {
      DescribedHold(t, i + 1, utf16, lba);
      var rest := GptImage.DescribedFrom(t, i + 1, utf16);
      if t[i].Some? {
        var p := GptImage.Described(t[i].value, i, utf16);
        AllocatedFirst(p, rest, lba);
        EntryUsable(t[i].value, i, utf16, lba);
      } else {
        assert GptImage.DescribedFrom(t, i, utf16) == rest;
      }
    }
  }

  lemma NothingAllocated(lba: nat)
    ensures !Allocated([], lba)
  {
  }

  lemma EntryUsable(e: GptImage.GptEntry, i: nat, utf16: Utf16, lba: nat)
    requires GptImage.ValidEntry(e)
    ensures var p := GptImage.Described(e, i, utf16);
            Usable(p) && p.startLba <= lba <= p.endLba <==> e.startLba <= lba <= e.endLba
  {
    hide GptImage.ValidEntry, GuidText;
  }

  lemma AllocatedFirst(p: Partition, rest: seq<Partition>, lba: nat)
    ensures Allocated([p] + rest, lba) <==> (Usable(p) && p.startLba <= lba <= p.endLba) || Allocated(rest, lba)
  {
    var all := [p] + rest;
    assert all[0] == p && forall k | 0 <= k < |rest| :: all[k + 1] == rest[k];
    if Allocated(rest, lba) {
      var k :| 0 <= k < |rest| && Usable(rest[k]) && rest[k].startLba <= lba <= rest[k].endLba;
      assert Usable(all[k + 1]);
    }
  }

  lemma WindowSectors(d: GptImage.GptDisk, lba: nat)
    requires GptImage.ValidDisk(d) && lba < d.sectors
    ensures 34 <= lba <= d.sectors - 34 ==> !TableSector(d, lba)
    ensures d.sectorSize == 512 ==> (34 <= lba <= d.sectors - 34 <==> !TableSector(d, lba))
  {
    hide GptImage.ValidTable, GptImage.Lba;
    var n := d.sectors;
    assert GptImage.Lba(d, 32) >= 16384 && (d.sectorSize == 512 ==> GptImage.Lba(d, 32) == 16384) by {
      SectorBytes(d, 32);
    }
    LbaOrder(d, 2, 32, lba);
    LbaOrder(d, n - 33, 32, lba);
  }

  lemma SectorBytes(d: GptImage.GptDisk, k: nat)
    requires d.sectorSize >= 512
    ensures GptImage.Lba(d, k) >= 512 * k && (d.sectorSize == 512 ==> GptImage.Lba(d, k) == 512 * k)
  {
  }

  // A sector lies within the `n` sectors from `a` on just when its first byte does.
  lemma LbaOrder(d: GptImage.GptDisk, a: nat, n: nat, lba: nat)
    requires d.sectorSize > 0
    ensures a <= lba <==> GptImage.Lba(d, a) <= GptImage.Lba(d, lba)
    ensures lba < a + n <==> GptImage.Lba(d, lba) < GptImage.Lba(d, a) + GptImage.Lba(d, n)
  {
    GptImage.LbaAdd(d, a, n);
    LbaLess(d, lba, a);
    LbaLess(d, lba, a + n);
  }

  lemma LbaLess(d: GptImage.GptDisk, a: nat, b: nat)
    requires d.sectorSize > 0
    ensures a < b <==> GptImage.Lba(d, a) < GptImage.Lba(d, b)
  {
    if a < b {
      GptImage.LbaAdd(d, a, b - a);
      GptImage.AtLeast(b - a, d.sectorSize);
    } else {
      GptImage.LbaAdd(d, b, a - b);
    }
  }

  /**
   On every GPT disk with a partition, no sector that a table stands in is reported as free, nor one that an
   entry holds; with sectors of 512 bytes every other sector is. Without a partition all sectors but the
   first are reported, the tables included.
   */
  lemma GptGaps(d: GptImage.GptDisk, utf16: Utf16, lba: nat)
    requires GptImage.ValidDisk(d) && lba < d.sectors
    ensures DiskLayoutOf(GptImage.Image(d), |GptImage.Image(d)|, d.sectorSize, utf16).Ok?
    ensures var gaps := GapsOf(DiskLayoutOf(GptImage.Image(d), |GptImage.Image(d)|, d.sectorSize, utf16).value);
            if NoEntries(d.primary) then Covers(gaps, lba) <==> lba > 0
            else
              && (Covers(gaps, lba) ==> !TableSector(d, lba) && !EntryHolds(d.primary, lba))
              && (d.sectorSize == 512 ==> (Covers(gaps, lba) <==> !TableSector(d, lba) && !EntryHolds(d.primary, lba)))
  {
    hide GptImage.Image, DiskLayoutOf, GapsOf, Covers, Allocated, TableSector, GptImage.DescribedFrom, GptImage.Lba,
         GptImage.ValidTable;
    GptImage.GptRoundTrip(d, utf16);
    GptImage.SectorsFit(d);
    var layout := DiskLayoutOf(GptImage.Image(d), |GptImage.Image(d)|, d.sectorSize, utf16).value;
    GapsAreComplement(layout);
    DescribedHold(d.primary, 0, utf16, lba);
    WindowSectors(d, lba);
  }

  /* MBR disks */

  // Some partition holds the sector, by its first sector and its count.
  predicate CountHolds(ps: seq<Partition>, lba: nat) {
    exists k | 0 <= k < |ps| :: ps[k].startLba <= lba < ps[k].startLba + ps[k].totalSectors
  }

  lemma AllocatedByCount(ps: seq<Partition>, lba: nat)
    requires ExactSpans(ps) && forall k | 0 <= k < |ps| :: ps[k].totalSectors < U64_MAX
    ensures Allocated(ps, lba) <==> CountHolds(ps, lba)
  {
    forall k | 0 <= k < |ps|
      ensures Usable(ps[k]) && ps[k].startLba <= lba <= ps[k].endLba
              <==> ps[k].startLba <= lba < ps[k].startLba + ps[k].totalSectors
    {
      assert ExactSpan(ps[k]);
    }
  }

  /**
   On every MBR disk with a partition, primary or logical, a sector is reported as free if and only if it is
   not the first of the disk and no partition holds it.
   */
  lemma MbrGaps(disk: seq<byte>, ss: nat, m: MbrImage.MbrTable, cs: seq<MbrImage.Chain>, sectors: nat, utf16: Utf16,
                lba: nat)
    requires MbrImage.HoldsMbr(disk, ss, m, cs) && sectors == |disk| / ss <= U64_MAX && lba < sectors
    requires MbrImage.NoGptHeader(disk, 1, ss) && (sectors >= 3 ==> MbrImage.NoGptHeader(disk, sectors - 1, ss))
    requires MbrImage.DescribedMbr(m, cs) != []
    ensures DiskLayoutOf(disk, |disk|, ss, utf16).Ok?
    ensures Covers(GapsOf(DiskLayoutOf(disk, |disk|, ss, utf16).value), lba)
            <==> lba > 0 && !CountHolds(MbrImage.DescribedMbr(m, cs), lba)
  {
    hide DiskLayoutOf, GapsOf, Covers, Allocated, MbrImage.DescribedMbr, MbrImage.HoldsChain, MbrImage.NoGptHeader,
         MbrImage.MbrSector, ExactSpans, CountHolds, MbrImage.ValidChains;
    MbrImage.MbrDiskRoundTrip(disk, ss, m, cs, sectors, utf16);
    ParsedSpansExact(disk, |disk|, ss, utf16);
    var layout := DiskLayoutOf(disk, |disk|, ss, utf16).value;
    GapsAreComplement(layout);
    MbrImage.SmallCounts(m, cs);
    AllocatedByCount(layout.partitions, lba);
  }
}
