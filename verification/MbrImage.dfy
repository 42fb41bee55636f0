/**
 Master boot records and the chains of extended boot records inside their containers, as they are written,
 and parsed back.
 */
module MbrImage {
  import opened Bytes
  import opened Partitions

  datatype Logical = Logical(typeByte: byte, rel: u32, count: u32, bootable: bool)

  // One record: its place in the container, its partition if it has one, and the bytes the format leaves free.
  datatype Record = Record(at: u32, logical: Option<Logical>, code: seq<byte>, slots: seq<byte>)

  // What the link of the last record says; zero for none.
  datatype Chain = Chain(records: seq<Record>, last: u32)

  predicate ValidRecord(r: Record) {
    && |r.code| == 446 && |r.slots| == 32
    && (r.logical.Some? ==> r.logical.value.typeByte != 0 && r.logical.value.count > 0)
  }

  predicate AllValid(rs: seq<Record>) {
    forall k | 0 <= k < |rs| :: ValidRecord(rs[k])
  }

  predicate DifferentPlaces(rs: seq<Record>) {
    forall j, k | 0 <= j < k < |rs| :: rs[j].at != rs[k].at
  }

  // The records stand at different places, the first at the container's start, and the links end the chain
  // or lead back into it.
  ghost predicate ValidChain(c: Chain, ext: Extended) {
    && c.records != [] && c.records[0].at == 0
    && AllValid(c.records)
    && (forall k | 0 < k < |c.records| :: 0 < c.records[k].at < ext.sectors)
    && DifferentPlaces(c.records)
    && (c.last < ext.sectors ==> exists k :: 0 <= k < |c.records| && c.records[k].at == c.last)
  }

  function EncodeSlot(status: byte, typeByte: byte, lba: u32, count: u32): (b: seq<byte>)
    ensures |b| == 16
  {
    [status, 0, 0, 0, typeByte, 0, 0, 0] + LeBytes(lba, 4) + LeBytes(count, 4)
  }

  function LogicalSlot(l: Option<Logical>): (b: seq<byte>)
    ensures |b| == 16
  {
    if l.None? then EncodeSlot(0, 0, 0, 0)
    else EncodeSlot(if l.value.bootable then 0x80 else 0, l.value.typeByte, l.value.rel, l.value.count)
  }

  function EncodeRecord(r: Record, link: u32): (b: seq<byte>)
    requires ValidRecord(r)
    ensures |b| == 512
  {
    r.code + LogicalSlot(r.logical) + EncodeSlot(0, 0x05, link, 1) + r.slots + [0x55, 0xAA]
  }

  function LinkOf(c: Chain, k: nat): u32 {
    if k + 1 < |c.records| then c.records[k + 1].at else c.last
  }

  ghost predicate HoldsChain(disk: seq<byte>, ss: nat, ext: Extended, c: Chain)
    requires ValidChain(c, ext)
  {
    forall k | 0 <= k < |c.records| ::
      ReadExact(disk, SatMul(ext.base + c.records[k].at, ss), 512) == Some(EncodeRecord(c.records[k], LinkOf(c, k)))
  }

  // What the parser should say of a record.
  function Described(base: nat, r: Record, index: nat): seq<Partition>
    requires ValidRecord(r)
  {
    if r.logical.None? then [] else
      var l := r.logical.value;
      var start: nat := base + r.at + l.rel;
      [Partition(index, start, start + l.count - 1, l.count, None, Some(l.typeByte), l.bootable, None)]
  }

  function DescribedAll(base: nat, rs: seq<Record>, index: nat): seq<Partition>
    requires AllValid(rs)
  {
    if rs == [] then [] else
      var first := Described(base, rs[0], index);
      first + DescribedAll(base, rs[1..], index + |first|)
  }

  lemma SlotFields(status: byte, typeByte: byte, lba: u32, count: u32)
    ensures var e := EncodeSlot(status, typeByte, lba, count);
            e[0] == status && e[4] == typeByte && Field(e, 8, 4) == lba && Field(e, 12, 4) == count
  {
    hide Le, LeBytes;
    var e := EncodeSlot(status, typeByte, lba, count);
    assert e[8..12] == LeBytes(lba, 4) && e[12..16] == LeBytes(count, 4);
    Pow256Values();
    LeRoundTrip(lba, 4);
    LeRoundTrip(count, 4);
  }

  lemma RecordSlots(r: Record, link: u32)
    requires ValidRecord(r)
    ensures var b := EncodeRecord(r, link);
            && BootSignature(b) && b[446..462] == LogicalSlot(r.logical) && b[462..478] == EncodeSlot(0, 0x05, link, 1)
  {
    hide EncodeSlot, LogicalSlot;
  }

  lemma RecordRoundTrip(r: Record, link: u32, ext: Extended, index: nat)
    requires ValidRecord(r) && ext.base < U32_LIMIT && ext.sectors < U32_LIMIT
    ensures var b := EncodeRecord(r, link);
            && BootSignature(b)
            && LogicalPartition(b, ext.base + r.at, index) == Described(ext.base, r, index)
            && NextEbr(b, ext) == if 0 < link < ext.sectors then Some(ext.base + link) else None
  {
    hide EncodeRecord, EncodeSlot, Le;
    RecordSlots(r, link);
    SlotFields(0, 0x05, link, 1);
    if r.logical.None? {
      SlotFields(0, 0, 0, 0);
    } else {
      var l := r.logical.value;
      SlotFields(if l.bootable then 0x80 else 0, l.typeByte, l.rel, l.count);
    }
  }

  // The places of the first `k` records on the disk.
  function Places(base: nat, rs: seq<Record>, k: nat): set<nat>
    requires k <= |rs|
  {
    if k == 0 then {} else Places(base, rs, k - 1) + {base + rs[k - 1].at}
  }

  lemma {:induction false} PlacesHold(base: nat, rs: seq<Record>, k: nat, lba: nat)
    requires k <= |rs|
    ensures lba in Places(base, rs, k) <==> exists j :: 0 <= j < k && base + rs[j].at == lba
  {
    if k > 0 {
      PlacesHold(base, rs, k - 1, lba);
    }
  }

  lemma {:induction false} PlacesCount(base: nat, rs: seq<Record>, k: nat)
    requires DifferentPlaces(rs) && k <= |rs|
    ensures |Places(base, rs, k)| == k
    ensures k < |rs| ==> base + rs[k].at !in Places(base, rs, k)
  {
    if k > 0 {
      PlacesCount(base, rs, k - 1);
    }
    if k < |rs| {
      PlacesHold(base, rs, k, base + rs[k].at);
    }
  }

  lemma RecordHeld(disk: seq<byte>, ss: nat, ext: Extended, c: Chain, k: nat)
    requires ValidChain(c, ext) && HoldsChain(disk, ss, ext, c) && k < |c.records|
    ensures ValidRecord(c.records[k]) && (k + 1 < |c.records| ==> 0 < LinkOf(c, k) < ext.sectors)
    ensures ReadExact(disk, SatMul(ext.base + c.records[k].at, ss), 512)
            == Some(EncodeRecord(c.records[k], LinkOf(c, k)))
  {
    hide EncodeRecord, ValidRecord, ReadExact, SatMul;
  }

  lemma NoneDescribed(base: nat, index: nat)
    ensures DescribedAll(base, [], index) == []
  {
  }

  lemma DescribedFrom(base: nat, rs: seq<Record>, k: nat, last: nat, index: nat)
    requires AllValid(rs) && k < last <= |rs|
    ensures var first := Described(base, rs[k], index);
            DescribedAll(base, rs[k..last], index) == first + DescribedAll(base, rs[k + 1..last], index + |first|)
  {
    hide ValidRecord, Described;
    assert rs[k..last][0] == rs[k] && rs[k..last][1..] == rs[k + 1..last];
  }

  lemma PlacesFor(ext: Extended, c: Chain, k: nat)
    requires ValidChain(c, ext) && k < |c.records|
    ensures |Places(ext.base, c.records, k)| == k
    ensures var lba: nat := ext.base + c.records[k].at;
            lba !in Places(ext.base, c.records, k)
            && Places(ext.base, c.records, k + 1) == Places(ext.base, c.records, k) + {lba}
  {
    hide DifferentPlaces, AllValid;
    PlacesCount(ext.base, c.records, k);
  }

  // One turn of the walk, at record `k` with those before it visited.
  lemma WalkRecord(disk: seq<byte>, ss: nat, ext: Extended, c: Chain, k: nat, index: nat)
    requires ext.base < U32_LIMIT && ext.sectors < U32_LIMIT && ValidChain(c, ext) && HoldsChain(disk, ss, ext, c)
    requires k < |c.records|
    ensures ValidRecord(c.records[k]) && (k + 1 < |c.records| ==> 0 < LinkOf(c, k) < ext.sectors)
    ensures EbrWalk(disk, ss, ext, ext.base + c.records[k].at, Places(ext.base, c.records, k), index) ==
            if k >= 64 then [] else
              var found, link := Described(ext.base, c.records[k], index), LinkOf(c, k);
              found + if 0 < link < ext.sectors
                      then EbrWalk(disk, ss, ext, ext.base + link, Places(ext.base, c.records, k + 1), index + |found|)
                      else []
  {
    hide EncodeRecord, ValidRecord, LogicalPartition, NextEbr, ReadExact, SatMul, Described, HoldsChain, EbrWalk,
         BootSignature, LinkOf, ValidChain, Places;
    RecordHeld(disk, ss, ext, c, k);
    PlacesFor(ext, c, k);
    RecordRoundTrip(c.records[k], LinkOf(c, k), ext, index);
    EbrTurn(disk, ss, ext, ext.base + c.records[k].at, Places(ext.base, c.records, k), index);
  }

  // The walk from record `k` on.
  lemma {:induction false} WalkRoundTrip(disk: seq<byte>, ss: nat, ext: Extended, c: Chain, k: nat, index: nat)
    requires ext.base < U32_LIMIT && ext.sectors < U32_LIMIT && ValidChain(c, ext) && HoldsChain(disk, ss, ext, c)
    requires k < |c.records| && k <= 64
    ensures AllValid(c.records[k..Max(k, Min(|c.records|, 64))])
    ensures EbrWalk(disk, ss, ext, ext.base + c.records[k].at, Places(ext.base, c.records, k), index)
            == DescribedAll(ext.base, c.records[k..Max(k, Min(|c.records|, 64))], index)
    decreases |c.records| - k
  {
    hide ValidRecord, Described, HoldsChain, EbrWalk, DifferentPlaces, DescribedAll, Places;
    var last := Max(k, Min(|c.records|, 64));
    WalkRecord(disk, ss, ext, c, k, index);
    if k < 64 {
      var next := index + |Described(ext.base, c.records[k], index)|;
      DescribedFrom(ext.base, c.records, k, last, index);
      if k + 1 < |c.records| {
        WalkRoundTrip(disk, ss, ext, c, k + 1, next);
      } else {
        AfterLast(disk, ss, ext, c, next);
        NoneDescribed(ext.base, next);
        assert c.records[k + 1..last] == [];
      }
    } else {
      NoneDescribed(ext.base, index);
      assert c.records[k..last] == [];
    }
  }

  // A last link that leads back into the chain yields nothing more.
  lemma AfterLast(disk: seq<byte>, ss: nat, ext: Extended, c: Chain, index: nat)
    requires ValidChain(c, ext)
    ensures c.last < ext.sectors ==>
              EbrWalk(disk, ss, ext, ext.base + c.last, Places(ext.base, c.records, |c.records|), index) == []
  {
    hide ValidRecord, DifferentPlaces, EbrWalk, ReadExact;
    PlacesHold(ext.base, c.records, |c.records|, ext.base + c.last);
    EbrTurn(disk, ss, ext, ext.base + c.last, Places(ext.base, c.records, |c.records|), index);
  }

  /**
   Parsing undoes writing: from a container that holds a chain of records, in any order on the disk, exactly
   the partitions of the first 64 records come back, in chain order, whether the chain ends, loops or leaves
   the container.
   */
  lemma ChainRoundTrip(disk: seq<byte>, ss: nat, ext: Extended, c: Chain, index: nat)
    requires ext.base < U32_LIMIT && ext.sectors < U32_LIMIT && ValidChain(c, ext) && HoldsChain(disk, ss, ext, c)
    ensures EbrWalk(disk, ss, ext, ext.base, {}, index)
            == DescribedAll(ext.base, c.records[..Min(|c.records|, 64)], index)
  {
    hide ValidRecord, EbrWalk, HoldsChain, DifferentPlaces;
    WalkRoundTrip(disk, ss, ext, c, 0, index);
  }

  /* Several containers */

  ghost predicate ValidChains(exts: seq<Extended>, cs: seq<Chain>) {
    |exts| == |cs| && forall i | 0 <= i < |exts| :: ValidChain(cs[i], exts[i])
  }

  ghost predicate HoldsChains(disk: seq<byte>, ss: nat, exts: seq<Extended>, cs: seq<Chain>) {
    && ValidChains(exts, cs)
    && forall i | 0 <= i < |exts| ::
         exts[i].base < U32_LIMIT && exts[i].sectors < U32_LIMIT && HoldsChain(disk, ss, exts[i], cs[i])
  }

  ghost function DescribedChains(exts: seq<Extended>, cs: seq<Chain>, index: nat): seq<Partition>
    requires ValidChains(exts, cs)
  {
    if exts == [] then [] else
      assert ValidChain(cs[0], exts[0]);
      var first := DescribedAll(exts[0].base, cs[0].records[..Min(|cs[0].records|, 64)], index);
      first + DescribedChains(exts[1..], cs[1..], index + |first|)
  }

  lemma {:induction false} ChainsRoundTrip(disk: seq<byte>, ss: nat, exts: seq<Extended>, cs: seq<Chain>, index: nat)
    requires HoldsChains(disk, ss, exts, cs)
    ensures EbrWalks(disk, ss, exts, index) == DescribedChains(exts, cs, index)
    decreases |exts|
  {
    hide EbrWalk, ValidChain, HoldsChain, DescribedAll, AllValid;
    if exts != [] {
      ChainRoundTrip(disk, ss, exts[0], cs[0], index);
      ChainsRoundTrip(disk, ss, exts[1..], cs[1..], index + |EbrWalk(disk, ss, exts[0], exts[0].base, {}, index)|);
    }
  }

  /* Master boot records */

  // A slot of type zero is unused.
  datatype Slot = Slot(status: byte, typeByte: byte, first: u32, count: u32)

  // The boot code, the four slots, and whatever fills a sector of more than 512 bytes.
  datatype MbrTable = MbrTable(code: seq<byte>, slots: seq<Slot>, pad: seq<byte>)

  predicate ValidMbr(m: MbrTable) {
    |m.code| == 446 && |m.slots| == 4
  }

  function SlotBytes(s: Slot): (b: seq<byte>)
    ensures |b| == 16
  {
    EncodeSlot(s.status, s.typeByte, s.first, s.count)
  }

  function MbrSector(m: MbrTable): (b: seq<byte>)
    requires ValidMbr(m)
    ensures |b| == 512 + |m.pad|
  {
    m.code + SlotBytes(m.slots[0]) + SlotBytes(m.slots[1]) + SlotBytes(m.slots[2]) + SlotBytes(m.slots[3])
    + [0x55, 0xAA] + m.pad
  }

  // What the parser should say of slot `i`.
  function DescribedSlot(s: Slot, i: nat): Partition {
    var end: nat := if s.count == 0 then s.first else s.first + (s.count - 1);
    Partition(i + 1, s.first, end, s.count, None, Some(s.typeByte), s.status == 0x80, None)
  }

  function DescribedSlots(slots: seq<Slot>, i: nat): seq<Partition>
    decreases |slots| - i
  {
    if i >= |slots| then [] else
      (if slots[i].typeByte != 0 then [DescribedSlot(slots[i], i)] else []) + DescribedSlots(slots, i + 1)
  }

  lemma SlotsTurn(slots: seq<Slot>, i: nat)
    requires i < |slots|
    ensures DescribedSlots(slots, i)
            == (if slots[i].typeByte != 0 then [DescribedSlot(slots[i], i)] else []) + DescribedSlots(slots, i + 1)
  {
    hide DescribedSlot;
  }

  // The slots that hold extended containers.
  function Containers(slots: seq<Slot>, i: nat): seq<Extended>
    decreases |slots| - i
  {
    if i >= |slots| then [] else
      (if slots[i].typeByte in {0x05, 0x0F, 0x85} then [Extended(slots[i].first, slots[i].count)] else [])
      + Containers(slots, i + 1)
  }

  lemma SectorSlots(m: MbrTable)
    requires ValidMbr(m)
    ensures var b := MbrSector(m);
            && BootSignature(b)
            && forall i | 0 <= i < 4 :: MbrEntry(b, i) == SlotBytes(m.slots[i])
  {
    hide SlotBytes;
    var a, x, y, z, w, v := m.code, SlotBytes(m.slots[0]), SlotBytes(m.slots[1]), SlotBytes(m.slots[2]),
      SlotBytes(m.slots[3]), [0x55, 0xAA] + m.pad;
    assert MbrSector(m) == a + x + y + z + w + v;
    SlotSlices(a, x, y, z, w, v);
  }

  lemma SlotSlices(a: seq<byte>, x: seq<byte>, y: seq<byte>, z: seq<byte>, w: seq<byte>, v: seq<byte>)
    requires |a| == 446 && |x| == |y| == |z| == |w| == 16
    ensures var b := a + x + y + z + w + v;
            b[446..462] == x && b[462..478] == y && b[478..494] == z && b[494..510] == w && b[510..] == v
  {
  }

  lemma SlotRoundTrip(m: MbrTable, i: nat)
    requires ValidMbr(m) && i < 4
    ensures var e := MbrEntry(MbrSector(m), i);
            e[4] == m.slots[i].typeByte && PrimaryPartition(e, i) == DescribedSlot(m.slots[i], i)
  {
    hide MbrSector, MbrEntry, EncodeSlot, Le;
    SectorSlots(m);
    var s := m.slots[i];
    SlotFields(s.status, s.typeByte, s.first, s.count);
  }

  lemma {:induction false} SlotsRoundTrip(m: MbrTable, i: nat)
    requires ValidMbr(m) && i <= 4
    ensures PrimaryPartitions(MbrSector(m), i) == DescribedSlots(m.slots, i)
    decreases 4 - i
  {
    hide MbrSector, MbrEntry, PrimaryPartition, DescribedSlot;
    if i < 4 {
      SlotRoundTrip(m, i);
      SlotsRoundTrip(m, i + 1);
    }
  }

  lemma {:induction false} ContainersRoundTrip(slots: seq<Slot>, i: nat)
    ensures ExtendedOf(DescribedSlots(slots, i)) == Containers(slots, i)
    decreases |slots| - i
  {
    if i < |slots| {
      ContainersRoundTrip(slots, i + 1);
      var rest := DescribedSlots(slots, i + 1);
      if slots[i].typeByte != 0 {
        assert ([DescribedSlot(slots[i], i)] + rest)[1..] == rest;
      } else {
        assert DescribedSlots(slots, i) == rest;
      }
    }
  }

  // The disk starts with that record, and each of its containers holds its chain.
  ghost predicate HoldsMbr(disk: seq<byte>, ss: nat, m: MbrTable, cs: seq<Chain>) {
    && ValidMbr(m) && ss == 512 + |m.pad| && ReadExact(disk, 0, ss) == Some(MbrSector(m))
    && HoldsChains(disk, ss, Containers(m.slots, 0), cs)
  }

  ghost function DescribedMbr(m: MbrTable, cs: seq<Chain>): seq<Partition>
    requires ValidChains(Containers(m.slots, 0), cs)
  {
    DescribedSlots(m.slots, 0) + DescribedChains(Containers(m.slots, 0), cs, 5)
  }

  predicate HasType(m: MbrTable, typeByte: byte)
    requires ValidMbr(m)
  {
    exists i | 0 <= i < 4 :: m.slots[i].typeByte == typeByte
  }

  /**
   A whole MBR: the used slots as they were written, then the partitions of each container's chain, numbered on from
   5.
   */
  lemma MbrRoundTrip(disk: seq<byte>, ss: nat, m: MbrTable, cs: seq<Chain>)
    requires HoldsMbr(disk, ss, m, cs)
    ensures MbrOf(disk, ss) == Ok(MbrInfo(true, DescribedMbr(m, cs), HasType(m, 0xEE)))
  {
    hide PrimaryPartitions, EbrWalks, ExtendedOf, DescribedChains, DescribedSlots, Containers, MbrSector, MbrEntry,
         ReadExact, HoldsChains, PrimaryPartition;
    SectorSlots(m);
    SlotsRoundTrip(m, 0);
    ContainersRoundTrip(m.slots, 0);
    ChainsRoundTrip(disk, ss, Containers(m.slots, 0), cs, 5);
    forall i | 0 <= i < 4
      ensures MbrEntry(MbrSector(m), i)[4] == m.slots[i].typeByte
    {
      SlotRoundTrip(m, i);
    }
  }

  lemma SingleSlot(m: MbrTable)
    requires ValidMbr(m) && m.slots[0].typeByte !in {0, 0x05, 0x0F, 0x85}
    requires m.slots[1].typeByte == m.slots[2].typeByte == m.slots[3].typeByte == 0
    ensures Containers(m.slots, 0) == [] && DescribedMbr(m, []) == [DescribedSlot(m.slots[0], 0)]
  {
    hide DescribedSlot;
    assert Containers(m.slots, 4) == [] && DescribedSlots(m.slots, 4) == [];
    assert Containers(m.slots, 3) == [] && DescribedSlots(m.slots, 3) == [];
    assert Containers(m.slots, 2) == [] && DescribedSlots(m.slots, 2) == [];
    assert Containers(m.slots, 1) == [] && DescribedSlots(m.slots, 1) == [];
    assert Containers(m.slots, 0) == [];
  }

  // No GPT header starts at the sector.
  predicate NoGptHeader(disk: seq<byte>, lba: nat, ss: nat) {
    ReadExact(disk, SatMul(lba, ss), 8) != Some([0x45, 0x46, 0x49, 0x20, 0x50, 0x41, 0x52, 0x54])
  }

  lemma NoCopy(disk: seq<byte>, lba: nat, ss: nat, utf16: Utf16)
    requires NoGptHeader(disk, lba, ss)
    ensures !GptCopyAt(disk, lba, ss, utf16).valid
  {
    hide SatMul, Field, ChecksumInput;
    var at := SatMul(lba, ss);
    if at + ss <= |disk| && ss >= 92 {
      assert disk[at..at + ss][0..8] == disk[at..at + 8];
    }
  }

  // The layout of such a disk; `primary` and `backup` are not found.
  ghost function MbrLayout(m: MbrTable, cs: seq<Chain>, ss: nat, sectors: nat): DiskLayout
    requires ValidMbr(m) && ValidChains(Containers(m.slots, 0), cs)
  {
    var ps := DescribedMbr(m, cs);
    var table := if ps == [] then NoTable else Mbr;
    DiskLayout(ss, sectors, table, ps, HasType(m, 0xEE), false, false, false, false, |ps|, 0)
  }

  lemma NoGpt(disk: seq<byte>, sectors: nat, ss: nat, utf16: Utf16)
    requires NoGptHeader(disk, 1, ss) && (sectors >= 3 ==> NoGptHeader(disk, sectors - 1, ss))
    ensures GptOf(disk, sectors, ss, utf16) == GptInfo(false, false, false, false, [])
  {
    hide GptCopyAt, NoGptHeader;
    NoCopy(disk, 1, ss, utf16);
    if sectors >= 3 {
      NoCopy(disk, sectors - 1, ss, utf16);
    }
  }

  /** A disk with such a record and no GPT header parses to type Mbr and exactly those partitions. */
  lemma MbrDiskRoundTrip(disk: seq<byte>, ss: nat, m: MbrTable, cs: seq<Chain>, sectors: nat, utf16: Utf16)
    requires HoldsMbr(disk, ss, m, cs) && sectors == |disk| / ss
    requires NoGptHeader(disk, 1, ss) && (sectors >= 3 ==> NoGptHeader(disk, sectors - 1, ss))
    ensures DiskLayoutOf(disk, |disk|, ss, utf16) == Ok(MbrLayout(m, cs, ss, sectors))
  {
    hide MbrOf, GptOf, DescribedMbr, NoGptHeader, HoldsChains, MbrSector, Containers, ValidChains;
    MbrRoundTrip(disk, ss, m, cs);
    NoGpt(disk, sectors, ss, utf16);
  }

  /* Counts are 32-bit numbers */

  predicate Small(ps: seq<Partition>) {
    forall k | 0 <= k < |ps| :: ps[k].totalSectors < U32_LIMIT
  }

  lemma {:induction false} SmallSlots(slots: seq<Slot>, i: nat)
    ensures Small(DescribedSlots(slots, i))
    decreases |slots| - i
  {
    if i < |slots| {
      SmallSlots(slots, i + 1);
    }
  }

  lemma {:induction false} SmallRecords(base: nat, rs: seq<Record>, index: nat)
    requires AllValid(rs)
    ensures Small(DescribedAll(base, rs, index))
  {
    hide ValidRecord;
    if rs != [] {
      SmallRecords(base, rs[1..], index + |Described(base, rs[0], index)|);
    }
  }

  lemma {:induction false} SmallChains(exts: seq<Extended>, cs: seq<Chain>, index: nat)
    requires ValidChains(exts, cs)
    ensures Small(DescribedChains(exts, cs, index))
    decreases |exts|
  {
    hide DescribedAll, AllValid, DifferentPlaces;
    if exts != [] {
      assert ValidChain(cs[0], exts[0]);
      var rs := cs[0].records[..Min(|cs[0].records|, 64)];
      FrontValid(cs[0].records, |rs|);
      SmallRecords(exts[0].base, rs, index);
      SmallChains(exts[1..], cs[1..], index + |DescribedAll(exts[0].base, rs, index)|);
    }
  }

  lemma FrontValid(rs: seq<Record>, n: nat)
    requires AllValid(rs) && n <= |rs|
    ensures AllValid(rs[..n])
  {
  }

  lemma SmallCounts(m: MbrTable, cs: seq<Chain>)
    requires ValidMbr(m) && ValidChains(Containers(m.slots, 0), cs)
    ensures Small(DescribedMbr(m, cs))
  {
    hide DescribedSlots, DescribedChains, ValidChains, Containers;
    SmallSlots(m.slots, 0);
    SmallChains(Containers(m.slots, 0), cs, 5);
  }
}
