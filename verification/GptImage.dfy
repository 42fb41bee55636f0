/**
 GPT disks laid out as section 5.3 of the UEFI Specification says: a protective MBR, the primary header
 and entries after it, the backup entries and header at the end. They carry the parser's checksum; what
 becomes of copies with the checksum that the specification prescribes is stated apart.
 */
module GptImage {
  import opened Bytes
  import opened Crc
  import opened Partitions
  import opened PartitionProofs
  import MbrImage

  datatype GptEntry = GptEntry(
    typeGuid: seq<byte>, uniqueGuid: seq<byte>, startLba: u64, endLba: u64, attributes: u64, name: seq<nat>)

  type Table = seq<Option<GptEntry>>

  const SLOTS := 128
  const ARRAY_BYTES := 16384

  predicate ValidEntry(e: GptEntry) {
    && |e.typeGuid| == 16 && (exists k | 0 <= k < 16 :: e.typeGuid[k] != 0)
    && |e.uniqueGuid| == 16
    && |e.name| <= 36
    && forall k | 0 <= k < |e.name| :: 0 < e.name[k] < 0x1_0000
  }

  predicate ValidTable(t: Table) {
    |t| <= SLOTS && forall k | 0 <= k < |t| :: t[k].Some? ==> ValidEntry(t[k].value)
  }

  function Zeros(n: nat): (z: seq<byte>)
    ensures |z| == n
  {
    seq(n, _ => 0)
  }

  function EncodeUnits(units: seq<nat>): (b: seq<byte>)
    ensures |b| == 2 * |units|
  {
    if units == [] then [] else LeBytes(units[0], 2) + EncodeUnits(units[1..])
  }

  function EncodeName(name: seq<nat>): (b: seq<byte>)
    requires |name| <= 36
    ensures |b| == 72
  {
    EncodeUnits(name) + Zeros(72 - 2 * |name|)
  }

  function EncodeEntry(e: GptEntry): (b: seq<byte>)
    requires ValidEntry(e)
    ensures |b| == 128
  {
    e.typeGuid + e.uniqueGuid + LeBytes(e.startLba, 8) + LeBytes(e.endLba, 8) + LeBytes(e.attributes, 8)
      + EncodeName(e.name)
  }

  function Slot(t: Table, i: nat): (b: seq<byte>)
    requires ValidTable(t)
    ensures |b| == 128
  {
    if i < |t| && t[i].Some? then EncodeEntry(t[i].value) else Zeros(128)
  }

  function EncodeSlots(t: Table, i: nat): (b: seq<byte>)
    requires ValidTable(t) && i <= SLOTS
    ensures |b| == 128 * (SLOTS - i)
    decreases SLOTS - i
  {
    if i == SLOTS then [] else Slot(t, i) + EncodeSlots(t, i + 1)
  }

  // What the parser should say of the table.
  function Described(e: GptEntry, i: nat, utf16: Utf16): Partition
    requires ValidEntry(e)
  {
    Partition(i + 1, e.startLba, e.endLba, if e.endLba >= e.startLba then SatAdd(e.endLba - e.startLba, 1) else 0,
              Some(GuidText(e.typeGuid)), None, false, utf16(e.name))
  }

  function DescribedFrom(t: Table, i: nat, utf16: Utf16): seq<Partition>
    requires ValidTable(t)
    decreases |t| - i
  {
    if i >= |t| then [] else
      (if t[i].Some? then [Described(t[i].value, i, utf16)] else []) + DescribedFrom(t, i + 1, utf16)
  }

  /* Entries */

  lemma {:induction false} NameRoundTrip(name: seq<nat>, pad: nat)
    requires forall k | 0 <= k < |name| :: 0 < name[k] < 0x1_0000
    requires pad % 2 == 0
    ensures NameUnits(EncodeUnits(name) + Zeros(pad)) == name
  {
    var raw := EncodeUnits(name) + Zeros(pad);
    if name == [] {
      assert raw == Zeros(pad);
      if pad > 0 {
        assert raw[..2] == [0, 0] && [0, 0][1..] == [0];
        assert Le([0]) == 0;
      }
    } else {
      assert raw[..2] == LeBytes(name[0], 2);
      assert raw[2..] == EncodeUnits(name[1..]) + Zeros(pad);
      Pow256Values();
      LeRoundTrip(name[0], 2);
      NameRoundTrip(name[1..], pad);
    }
  }

  lemma EntryFields(e: GptEntry)
    requires ValidEntry(e)
    ensures var b := EncodeEntry(e);
            && b[0..16] == e.typeGuid
            && b[32..40] == LeBytes(e.startLba, 8)
            && b[40..48] == LeBytes(e.endLba, 8)
            && b[56..128] == EncodeName(e.name)
  {
  }

  lemma EntryRoundTrip(e: GptEntry, i: nat, utf16: Utf16)
    requires ValidEntry(e)
    ensures !IsUnused(EncodeEntry(e)) && GptPartition(EncodeEntry(e), i, utf16) == Described(e, i, utf16)
  {
    hide EncodeEntry, EncodeName, Le, LeBytes, GuidText, NameUnits;
    var b := EncodeEntry(e);
    EntryFields(e);
    var k :| 0 <= k < 16 && e.typeGuid[k] != 0;
    assert b[0..16][k] == b[k];
    Pow256Values();
    LeRoundTrip(e.startLba, 8);
    LeRoundTrip(e.endLba, 8);
    NameFieldRoundTrip(e.name);
  }

  lemma NameFieldRoundTrip(name: seq<nat>)
    requires |name| <= 36 && forall k | 0 <= k < |name| :: 0 < name[k] < 0x1_0000
    ensures NameUnits(EncodeName(name)) == name
  {
    NameRoundTrip(name, 72 - 2 * |name|);
  }

  lemma {:induction false} SlotAt(t: Table, j: nat, i: nat)
    requires ValidTable(t) && j <= i < SLOTS
    ensures 128 * (i - j) + 128 <= |EncodeSlots(t, j)|
    ensures EncodeSlots(t, j)[128 * (i - j)..128 * (i - j) + 128] == Slot(t, i)
    decreases i - j
  {
    hide Slot, ValidTable;
    var rest := EncodeSlots(t, j + 1);
    assert EncodeSlots(t, j) == Slot(t, j) + rest;
    if j < i {
      SlotAt(t, j + 1, i);
      var o := 128 * (i - j - 1);
      assert (Slot(t, j) + rest)[o + 128..o + 256] == rest[o..o + 128];
    }
  }

  lemma SlotEntry(t: Table, i: nat)
    requires ValidTable(t) && i < SLOTS
    ensures EntryAt(EncodeSlots(t, 0), 128, i) == Slot(t, i)
  {
    SlotAt(t, 0, i);
  }

  /** A slot is unused exactly when its type is all zeros, whatever else it holds. */
  lemma UnusedIff(entry: seq<byte>)
    requires |entry| >= 128
    ensures IsUnused(entry) <==> entry[..16] == Zeros(16)
  {
    if entry[..16] == Zeros(16) {
      forall k | 0 <= k < 16
        ensures entry[k] == 0
      {
        assert entry[k] == entry[..16][k];
      }
    }
  }

  lemma {:induction false} TableRoundTrip(t: Table, i: nat, utf16: Utf16)
    requires ValidTable(t) && i <= SLOTS
    ensures EntryPartitions(EncodeSlots(t, 0), 128, SLOTS, i, utf16) == DescribedFrom(t, i, utf16)
    decreases SLOTS - i
  {
    hide EntryAt, EncodeSlots, EncodeEntry, GptPartition, Described, IsUnused, Slot;
    if i < SLOTS {
      SlotEntry(t, i);
      SlotRoundTrip(t, i, utf16);
      TableRoundTrip(t, i + 1, utf16);
    }
  }

  lemma SlotRoundTrip(t: Table, i: nat, utf16: Utf16)
    requires ValidTable(t) && i < SLOTS
    ensures IsUnused(Slot(t, i)) <==> !(i < |t| && t[i].Some?)
    ensures i < |t| && t[i].Some? ==> GptPartition(Slot(t, i), i, utf16) == Described(t[i].value, i, utf16)
  {
    hide EncodeEntry, GptPartition, Described;
    if i < |t| && t[i].Some? {
      EntryRoundTrip(t[i].value, i, utf16);
    }
  }

  /* Headers */

  // The 92 header bytes, with `crc` in the checksum field.
  function HeaderWith(crc: u32, current: u64, other: u64, lastUsable: u64, diskGuid: seq<byte>, entriesLba: u64,
                      entriesCrc: u32): (h: seq<byte>)
    requires |diskGuid| == 16
    ensures |h| == 92
  {
    EFI_PART + [0, 0, 1, 0] + LeBytes(92, 4) + LeBytes(crc, 4) + [0, 0, 0, 0]
    + LeBytes(current, 8) + LeBytes(other, 8) + LeBytes(34, 8) + LeBytes(lastUsable, 8) + diskGuid
    + LeBytes(entriesLba, 8) + LeBytes(SLOTS, 4) + LeBytes(128, 4) + LeBytes(entriesCrc, 4)
  }

  function Checksum(data: seq<byte>): u32 {
    Crc32Range(data);
    Crc32(data)
  }

  function Header(current: u64, other: u64, lastUsable: u64, diskGuid: seq<byte>, entriesLba: u64,
                  t: Table): (h: seq<byte>)
    requires |diskGuid| == 16 && ValidTable(t)
    ensures |h| == 92
  {
    var crc := Checksum(EncodeSlots(t, 0));
    var unsigned := HeaderWith(0, current, other, lastUsable, diskGuid, entriesLba, crc);
    HeaderWith(Checksum(unsigned), current, other, lastUsable, diskGuid, entriesLba, crc)
  }

  lemma HeaderFields(crc: u32, current: u64, other: u64, lastUsable: u64, diskGuid: seq<byte>, entriesLba: u64,
                     entriesCrc: u32, pad: seq<byte>)
    requires |diskGuid| == 16
    ensures var h := HeaderWith(crc, current, other, lastUsable, diskGuid, entriesLba, entriesCrc) + pad;
            && h[0..8] == EFI_PART
            && h[12..16] == LeBytes(92, 4)
            && h[16..20] == LeBytes(crc, 4)
            && h[32..40] == LeBytes(other, 8)
            && h[72..80] == LeBytes(entriesLba, 8)
            && h[80..84] == LeBytes(SLOTS, 4)
            && h[84..88] == LeBytes(128, 4)
            && h[88..92] == LeBytes(entriesCrc, 4)
  {
    hide LeBytes;
  }

  lemma HeaderInput(crc: u32, current: u64, other: u64, lastUsable: u64, diskGuid: seq<byte>, entriesLba: u64,
                    entriesCrc: u32, pad: seq<byte>)
    requires |diskGuid| == 16
    ensures ChecksumInput(HeaderWith(crc, current, other, lastUsable, diskGuid, entriesLba, entriesCrc) + pad, 92)
            == HeaderWith(0, current, other, lastUsable, diskGuid, entriesLba, entriesCrc)
  {
    hide LeBytes, ChecksumInput;
    var front := EFI_PART + [0, 0, 1, 0] + LeBytes(92, 4);
    var back := [0, 0, 0, 0] + LeBytes(current, 8) + LeBytes(other, 8) + LeBytes(34, 8) + LeBytes(lastUsable, 8)
                + diskGuid + LeBytes(entriesLba, 8) + LeBytes(SLOTS, 4) + LeBytes(128, 4) + LeBytes(entriesCrc, 4);
    LeZero();
    assert HeaderWith(crc, current, other, lastUsable, diskGuid, entriesLba, entriesCrc)
           == front + LeBytes(crc, 4) + back;
    assert HeaderWith(0, current, other, lastUsable, diskGuid, entriesLba, entriesCrc) == front + LeBytes(0, 4) + back;
    ZeroedChecksum(front, LeBytes(crc, 4), back, pad);
  }

  lemma ZeroedChecksum(front: seq<byte>, crc: seq<byte>, back: seq<byte>, pad: seq<byte>)
    requires |front| == 16 && |crc| == 4 && |back| == 72
    ensures ChecksumInput(front + crc + back + pad, 92) == front + [0, 0, 0, 0] + back
  {
  }

  lemma LeZero()
    ensures LeBytes(0, 4) == [0, 0, 0, 0]
  {
    assert LeBytes(0, 1) == [0];
    assert LeBytes(0, 2) == [0, 0];
    assert LeBytes(0, 3) == [0, 0, 0];
  }

  // What the parser makes of such a header, whatever checksums it carries.
  lemma HeaderReads(crc: u32, current: u64, other: u64, lastUsable: u64, diskGuid: seq<byte>, entriesLba: u64,
                    entriesCrc: u32, pad: seq<byte>)
    requires |diskGuid| == 16
    ensures var h := HeaderWith(crc, current, other, lastUsable, diskGuid, entriesLba, entriesCrc) + pad;
            && (HeaderIntact(h)
                <==> Crc32(HeaderWith(0, current, other, lastUsable, diskGuid, entriesLba, entriesCrc)) == crc)
            && BackupLbaOf(h) == other && EntriesLbaOf(h) == entriesLba
            && EntryCountOf(h) == SLOTS && EntrySizeOf(h) == 128 && EntriesCrcOf(h) == entriesCrc
  {
    hide HeaderWith, ChecksumInput, Crc32, Le, LeBytes;
    HeaderFields(crc, current, other, lastUsable, diskGuid, entriesLba, entriesCrc, pad);
    HeaderInput(crc, current, other, lastUsable, diskGuid, entriesLba, entriesCrc, pad);
    Pow256Values();
    LeRoundTrip(92, 4);
    LeRoundTrip(crc, 4);
    LeRoundTrip(other, 8);
    LeRoundTrip(entriesLba, 8);
    LeRoundTrip(SLOTS, 4);
    LeRoundTrip(128, 4);
    LeRoundTrip(entriesCrc, 4);
  }

  lemma HeaderRoundTrip(current: u64, other: u64, lastUsable: u64, diskGuid: seq<byte>, entriesLba: u64, t: Table,
                        pad: seq<byte>)
    requires |diskGuid| == 16 && ValidTable(t)
    ensures var h := Header(current, other, lastUsable, diskGuid, entriesLba, t) + pad;
            && HeaderIntact(h) && BackupLbaOf(h) == other && EntriesLbaOf(h) == entriesLba
            && EntryCountOf(h) == SLOTS && EntrySizeOf(h) == 128
            && EntriesCrcOf(h) == Crc32(EncodeSlots(t, 0))
  {
    hide HeaderWith, HeaderIntact, Crc32, EncodeSlots, BackupLbaOf, EntriesLbaOf, EntryCountOf, EntrySizeOf,
         EntriesCrcOf;
    var crc := Checksum(EncodeSlots(t, 0));
    var unsigned := HeaderWith(0, current, other, lastUsable, diskGuid, entriesLba, crc);
    HeaderReads(Checksum(unsigned), current, other, lastUsable, diskGuid, entriesLba, crc, pad);
  }

  // A disk holding such a header at `lba` and the table's entries where the header says reads back as the table.
  lemma CopyRoundTrip(disk: seq<byte>, ss: nat, utf16: Utf16, lba: u64, other: u64, lastUsable: u64,
                      diskGuid: seq<byte>, entriesLba: u64, t: Table, pad: seq<byte>)
    requires |diskGuid| == 16 && ValidTable(t) && 92 + |pad| == ss
    requires ReadExact(disk, SatMul(lba, ss), ss) == Some(Header(lba, other, lastUsable, diskGuid, entriesLba, t) + pad)
    requires ReadExact(disk, SatMul(entriesLba, ss), ARRAY_BYTES) == Some(EncodeSlots(t, 0))
    ensures GptCopyAt(disk, lba, ss, utf16) == GptCopy(true, DescribedFrom(t, 0, utf16), other)
  {
    hide Header, HeaderIntact, EncodeSlots, Crc32, EntryPartitions, DescribedFrom, ReadExact, SatMul, BackupLbaOf,
         EntriesLbaOf, EntryCountOf, EntrySizeOf, EntriesCrcOf;
    HeaderRoundTrip(lba, other, lastUsable, diskGuid, entriesLba, t, pad);
    TableRoundTrip(t, 0, utf16);
  }

  /* Copies signed with the checksum that GPT prescribes */

  function StandardChecksum(data: seq<byte>): u32 {
    StandardCrc32Range(data);
    StandardCrc32(data)
  }

  // Where a copy stands, what else its header says, and what follows the header in its sector.
  datatype Place = Place(lba: u64, other: u64, lastUsable: u64, diskGuid: seq<byte>, entriesLba: u64, pad: seq<byte>)

  // The header with `crc` in its checksum field and the prescribed checksum of the entries.
  function StandardHeader(p: Place, crc: u32, t: Table): (h: seq<byte>)
    requires |p.diskGuid| == 16 && ValidTable(t)
    ensures |h| == 92
  {
    HeaderWith(crc, p.lba, p.other, p.lastUsable, p.diskGuid, p.entriesLba, StandardChecksum(EncodeSlots(t, 0)))
  }

  // The disk holds the table at that place, signed as GPT prescribes.
  predicate HoldsStandardCopy(disk: seq<byte>, ss: nat, p: Place, t: Table) {
    && |p.diskGuid| == 16 && ValidTable(t)
    && ReadExact(disk, SatMul(p.lba, ss), ss)
       == Some(StandardHeader(p, StandardChecksum(StandardHeader(p, 0, t)), t) + p.pad)
    && ReadExact(disk, SatMul(p.entriesLba, ss), ARRAY_BYTES) == Some(EncodeSlots(t, 0))
  }

  /**
   A copy signed as GPT prescribes is accepted if and only if both of its checksums happen to be the
   parser's own too, the one of the header and the one of the entries.
   */
  lemma StandardCopyIff(disk: seq<byte>, ss: nat, utf16: Utf16, p: Place, t: Table)
    requires HoldsStandardCopy(disk, ss, p, t)
    ensures var unsigned, entries := StandardHeader(p, 0, t), EncodeSlots(t, 0);
            GptCopyAt(disk, p.lba, ss, utf16).valid
            <==> Crc32(unsigned) == StandardCrc32(unsigned) && Crc32(entries) == StandardCrc32(entries)
  {
    hide HeaderWith, HeaderIntact, EncodeSlots, Crc32, StandardCrc32, EntryPartitions, ReadExact, SatMul, BackupLbaOf,
         EntriesLbaOf, EntryCountOf, EntrySizeOf, EntriesCrcOf;
    HeaderReads(StandardChecksum(StandardHeader(p, 0, t)), p.lba, p.other, p.lastUsable, p.diskGuid, p.entriesLba,
                StandardChecksum(EncodeSlots(t, 0)), p.pad);
  }

  // All slots up to the last one's last character are there, and that character is below U+8000.
  predicate FullLastName(t: Table) {
    && ValidTable(t) && |t| == SLOTS && t[SLOTS - 1].Some?
    && |t[SLOTS - 1].value.name| == 36 && t[SLOTS - 1].value.name[35] < 0x8000
  }

  // The same table with the top bit of that character set.
  function Twin(t: Table): (r: Table)
    requires FullLastName(t)
    ensures ValidTable(r)
  {
    var e := t[SLOTS - 1].value;
    t[SLOTS - 1 := Some(e.(name := e.name[35 := e.name[35] + 0x8000]))]
  }

  // `a` and `b` are the same but for the top bit of the last byte.
  predicate Twins(a: seq<byte>, b: seq<byte>) {
    && |a| == |b| > 0 && a[..|a| - 1] == b[..|a| - 1]
    && a[|a| - 1] < 128 && b[|a| - 1] == a[|a| - 1] + 128
  }

  lemma TwinsAfter(front: seq<byte>, a: seq<byte>, b: seq<byte>)
    requires Twins(a, b)
    ensures Twins(front + a, front + b)
  {
    assert (front + a)[..|front + a| - 1] == front + a[..|a| - 1];
    assert (front + b)[..|front + b| - 1] == front + b[..|a| - 1];
  }

  lemma {:induction false} UnitTwins(units: seq<nat>)
    requires units != [] && units[|units| - 1] < 0x8000
    ensures Twins(EncodeUnits(units), EncodeUnits(units[|units| - 1 := units[|units| - 1] + 0x8000]))
  {
    hide Twins;
    var n := |units| - 1;
    var twin := units[n := units[n] + 0x8000];
    if n == 0 {
      TwoBytes(units[0]);
    } else {
      assert twin[1..] == units[1..][n - 1 := units[n] + 0x8000];
      UnitTwins(units[1..]);
      TwinsAfter(LeBytes(units[0], 2), EncodeUnits(units[1..]), EncodeUnits(twin[1..]));
    }
  }

  lemma TwoBytes(u: nat)
    requires u < 0x8000
    ensures Twins(EncodeUnits([u]), EncodeUnits([u + 0x8000]))
  {
    assert LeBytes(u, 2) == [u % 256] + LeBytes(u / 256, 1) && LeBytes(u / 256, 1) == [u / 256];
    assert LeBytes(u + 0x8000, 2) == [u % 256] + LeBytes(u / 256 + 128, 1)
           && LeBytes(u / 256 + 128, 1) == [u / 256 + 128];
    assert EncodeUnits([u]) == [u % 256] + [u / 256];
    assert EncodeUnits([u + 0x8000]) == [u % 256] + [u / 256 + 128];
  }

  lemma {:induction false} TableTwins(t: Table, i: nat)
    requires FullLastName(t) && i < SLOTS
    ensures Twins(EncodeSlots(t, i), EncodeSlots(Twin(t), i))
    decreases SLOTS - i
  {
    hide Twins, EncodeEntry;
    if i == SLOTS - 1 {
      assert EncodeSlots(t, SLOTS) == [] && EncodeSlots(Twin(t), SLOTS) == [];
      assert Slot(t, i) + [] == Slot(t, i) && Slot(Twin(t), i) + [] == Slot(Twin(t), i);
      EntryTwins(t[i].value, Twin(t)[i].value);
    } else {
      TableTwins(t, i + 1);
      assert Slot(t, i) == Slot(Twin(t), i);
      TwinsAfter(Slot(t, i), EncodeSlots(t, i + 1), EncodeSlots(Twin(t), i + 1));
    }
  }

  lemma EntryTwins(e: GptEntry, twin: GptEntry)
    requires ValidEntry(e) && ValidEntry(twin) && |e.name| == 36 && e.name[35] < 0x8000
    requires twin == e.(name := e.name[35 := e.name[35] + 0x8000])
    ensures Twins(EncodeEntry(e), EncodeEntry(twin))
  {
    hide Twins, EncodeUnits, LeBytes;
    UnitTwins(e.name);
    assert EncodeName(e.name) == EncodeUnits(e.name) && EncodeName(twin.name) == EncodeUnits(twin.name);
    TwinsAfter(e.typeGuid + e.uniqueGuid + LeBytes(e.startLba, 8) + LeBytes(e.endLba, 8) + LeBytes(e.attributes, 8),
               EncodeName(e.name), EncodeName(twin.name));
  }

  /**
   Many such copies are rejected: of two copies, anywhere on any disks, that hold a table whose last slot has
   a name of full length and its twin, one at least is invalid.
   */
  lemma StandardCopiesRejected(disk: seq<byte>, disk': seq<byte>, ss: nat, utf16: Utf16, p: Place, p': Place, t: Table)
    requires FullLastName(t) && HoldsStandardCopy(disk, ss, p, t) && HoldsStandardCopy(disk', ss, p', Twin(t))
    ensures !GptCopyAt(disk, p.lba, ss, utf16).valid || !GptCopyAt(disk', p'.lba, ss, utf16).valid
  {
    hide EncodeSlots, Crc32, StandardCrc32, GptCopyAt, HoldsStandardCopy, StandardHeader;
    StandardCopyIff(disk, ss, utf16, p, t);
    StandardCopyIff(disk', ss, utf16, p', Twin(t));
    TableTwins(t, 0);
    var a, b := EncodeSlots(t, 0), EncodeSlots(Twin(t), 0);
    var n := |a| - 1;
    assert a == a[..n] + [a[n]] && b == a[..n] + [a[n] + 128];
    NotTheStandard(a[..n], a[n]);
  }

  /* Whole disks */

  datatype GptDisk = GptDisk(
    sectorSize: nat, sectors: nat, diskGuid: seq<byte>, primary: Table, backup: Table,
    boot: seq<byte>, pad0: seq<byte>, pad1: seq<byte>, middle: seq<byte>, gap: seq<byte>, pad2: seq<byte>,
      tail: seq<byte>)

  // The byte offset of a sector.
  function Lba(d: GptDisk, k: nat): nat {
    k * d.sectorSize
  }

  lemma LbaAdd(d: GptDisk, j: nat, k: nat)
    ensures Lba(d, j + k) == Lba(d, j) + Lba(d, k)
  {
  }

  // Big enough for both copies; every byte the format leaves free is arbitrary.
  predicate ValidDisk(d: GptDisk) {
    && 512 <= d.sectorSize && 35 <= d.sectors
    && Lba(d, d.sectors) <= U64_MAX
    && |d.diskGuid| == 16 && ValidTable(d.primary) && ValidTable(d.backup)
    && |d.boot| == 446 && |d.pad0| == d.sectorSize - 512
    && |d.pad1| == d.sectorSize - 92 && |d.pad2| == d.sectorSize - 92
    && |d.middle| == Lba(d, d.sectors - 35) - ARRAY_BYTES
    && |d.gap| == Lba(d, 32) - ARRAY_BYTES
    && |d.tail| < d.sectorSize
  }

  // One slot of type 0xEE for the whole disk.
  function ProtectiveTable(d: GptDisk): (m: MbrImage.MbrTable)
    requires ValidDisk(d)
    ensures MbrImage.ValidMbr(m)
  {
    var unused := MbrImage.Slot(0, 0, 0, 0);
    MbrImage.MbrTable(d.boot, [MbrImage.Slot(0, 0xEE, 1, Min(d.sectors - 1, 0xFFFF_FFFF)), unused, unused, unused],
                      d.pad0)
  }

  function ProtectiveMbr(d: GptDisk): (b: seq<byte>)
    requires ValidDisk(d)
    ensures |b| == d.sectorSize
  {
    MbrImage.MbrSector(ProtectiveTable(d))
  }

  function PrimaryHeader(d: GptDisk): (b: seq<byte>)
    requires ValidDisk(d)
    ensures |b| == d.sectorSize
  {
    SectorsFit(d);
    Header(1, d.sectors - 1, d.sectors - 35, d.diskGuid, 2, d.primary) + d.pad1
  }

  function BackupHeader(d: GptDisk): (b: seq<byte>)
    requires ValidDisk(d)
    ensures |b| == d.sectorSize
  {
    SectorsFit(d);
    Header(d.sectors - 1, 1, d.sectors - 35, d.diskGuid, d.sectors - 33, d.backup) + d.pad2
  }

  // The disk, with `mbr` as its first sector and `entries` as the bytes of its primary entry array.
  function ImageOver(d: GptDisk, mbr: seq<byte>, entries: seq<byte>): seq<byte>
    requires ValidDisk(d)
  {
    mbr + PrimaryHeader(d) + entries + d.middle + EncodeSlots(d.backup, 0) + d.gap + BackupHeader(d) + d.tail
  }

  function ImageWith(d: GptDisk, entries: seq<byte>): seq<byte>
    requires ValidDisk(d)
  {
    ImageOver(d, ProtectiveMbr(d), entries)
  }

  function Image(d: GptDisk): seq<byte>
    requires ValidDisk(d)
  {
    ImageWith(d, EncodeSlots(d.primary, 0))
  }

  lemma SectorsFit(d: GptDisk)
    requires ValidDisk(d)
    ensures d.sectors <= U64_MAX
  {
    hide ValidTable;
    AtLeast(d.sectors, d.sectorSize);
  }

  lemma AtLeast(a: nat, b: nat)
    requires b > 0
    ensures a <= a * b
  {
  }

  // Every sector of the disk has an offset that does not saturate.
  lemma LbaExact(d: GptDisk, k: nat)
    requires ValidDisk(d) && k <= d.sectors
    ensures SatMul(k, d.sectorSize) == Lba(d, k)
  {
    LbaAdd(d, k, d.sectors - k);
  }

  // Where each part of the disk lies.
  lemma Placement(d: GptDisk, mbr: seq<byte>, entries: seq<byte>)
    requires ValidDisk(d) && |mbr| == d.sectorSize && |entries| == ARRAY_BYTES
    ensures var disk, ss, n := ImageOver(d, mbr, entries), d.sectorSize, d.sectors;
            && |disk| == Lba(d, n) + |d.tail|
            && ReadExact(disk, 0, ss) == Some(mbr)
            && ReadExact(disk, Lba(d, 1), ss) == Some(PrimaryHeader(d))
            && ReadExact(disk, Lba(d, 2), ARRAY_BYTES) == Some(entries)
            && ReadExact(disk, Lba(d, n - 33), ARRAY_BYTES) == Some(EncodeSlots(d.backup, 0))
            && ReadExact(disk, Lba(d, n - 1), ss) == Some(BackupHeader(d))
  {
    hide Lba, PrimaryHeader, BackupHeader, EncodeSlots, ValidTable, ReadExact;
    Offsets(d);
    PlaceParts(mbr, PrimaryHeader(d), entries, d.middle, EncodeSlots(d.backup, 0), d.gap, BackupHeader(d), d.tail);
  }

  lemma Offsets(d: GptDisk)
    requires ValidDisk(d)
    ensures var n, ss := d.sectors, d.sectorSize;
            && Lba(d, 1) == ss && Lba(d, 2) == 2 * ss
            && Lba(d, n - 33) == 2 * ss + ARRAY_BYTES + |d.middle|
            && Lba(d, n - 1) == Lba(d, n - 33) + ARRAY_BYTES + |d.gap|
            && Lba(d, n) == Lba(d, n - 1) + ss
  {
    assert Lba(d, 1) == d.sectorSize && Lba(d, 2) == 2 * d.sectorSize;
    hide Lba, ValidTable;
    var n := d.sectors;
    LbaAdd(d, n - 35, 2);
    LbaAdd(d, n - 33, 32);
    LbaAdd(d, n - 1, 1);
  }

  lemma PlaceParts(a: seq<byte>, b: seq<byte>, c: seq<byte>, d: seq<byte>, e: seq<byte>, f: seq<byte>, g: seq<byte>,
                   h: seq<byte>)
    ensures var s := a + b + c + d + e + f + g + h;
            var c0, e0 := |a| + |b|, |a| + |b| + |c| + |d|;
            var g0 := e0 + |e| + |f|;
            && ReadExact(s, 0, |a|) == Some(a) && ReadExact(s, |a|, |b|) == Some(b) && ReadExact(s, c0, |c|) == Some(c)
            && ReadExact(s, e0, |e|) == Some(e) && ReadExact(s, g0, |g|) == Some(g)
  {
    var s := a + b + c + d + e + f + g + h;
    var c0, e0 := |a| + |b|, |a| + |b| + |c| + |d|;
    var g0 := e0 + |e| + |f|;
    assert s[0..|a|] == a;
    assert s[|a|..|a| + |b|] == b;
    assert s[c0..c0 + |c|] == c;
    assert s[e0..e0 + |e|] == e;
    assert s[g0..g0 + |g|] == g;
  }

  lemma SectorCount(d: GptDisk, total: nat)
    requires ValidDisk(d) && Lba(d, d.sectors) <= total < Lba(d, d.sectors) + d.sectorSize
    ensures total / d.sectorSize == d.sectors
  {
    var q, n, ss := total / d.sectorSize, d.sectors, d.sectorSize;
    assert q * ss <= total < q * ss + ss;
    if q != n {
      var lo, hi := Min(q, n), Max(q, n);
      assert (lo + 1) * ss <= hi * ss by {
        LbaAdd(d, lo + 1, hi - lo - 1);
      }
      assert false;
    }
  }

  lemma ProtectiveRoundTrip(disk: seq<byte>, d: GptDisk)
    requires ValidDisk(d) && ReadExact(disk, 0, d.sectorSize) == Some(ProtectiveMbr(d))
    ensures var m := ProtectiveTable(d);
            && MbrImage.HoldsMbr(disk, d.sectorSize, m, [])
            && MbrOf(disk, d.sectorSize) == Ok(MbrInfo(true, [MbrImage.DescribedSlot(m.slots[0], 0)], true))
  {
    hide ReadExact, MbrImage.MbrSector, MbrImage.DescribedSlot, MbrImage.DescribedMbr, MbrImage.Containers, MbrOf;
    var m := ProtectiveTable(d);
    MbrImage.SingleSlot(m);
    MbrImage.MbrRoundTrip(disk, d.sectorSize, m, []);
    assert m.slots[0].typeByte == 0xEE;
  }

  // Some partition of the MBR is not the protective one.
  predicate HasOther(mbr: MbrInfo) {
    exists k | 0 <= k < |mbr.partitions| :: mbr.partitions[k].typeByte != Some(0xEE)
  }

  // What any such disk parses to, given what its MBR and its two GPT copies parse to.
  lemma ImageLayout(d: GptDisk, mbr: seq<byte>, info: MbrInfo, entries: seq<byte>, utf16: Utf16, p: GptCopy)
    requires ValidDisk(d) && |mbr| == d.sectorSize && |entries| == ARRAY_BYTES
    requires var disk := ImageOver(d, mbr, entries);
             p == GptCopyAt(disk, 1, d.sectorSize, utf16) && MbrOf(disk, d.sectorSize) == Ok(info)
    ensures var disk := ImageOver(d, mbr, entries);
            var b := DescribedFrom(d.backup, 0, utf16);
            var found := if p.valid then p.partitions else b;
            DiskLayoutOf(disk, |disk|, d.sectorSize, utf16)
            == Ok(DiskLayout(d.sectorSize, d.sectors, if HasOther(info) then Hybrid else Gpt, found, info.hasProtective,
                             p.valid, true, p.valid && p.partitions != b, p.valid && p.backupLba != d.sectors - 1,
                             |info.partitions|, |found|))
  {
    hide Lba, ImageOver, EncodeSlots, PrimaryHeader, BackupHeader, GptCopyAt, MbrOf, ReadExact, DescribedFrom;
    var disk := ImageOver(d, mbr, entries);
    Placement(d, mbr, entries);
    SectorCount(d, |disk|);
    BackupRoundTrip(disk, d, utf16);
    LbaAdd(d, 1, d.sectors - 1);
  }

  lemma BackupRoundTrip(disk: seq<byte>, d: GptDisk, utf16: Utf16)
    requires ValidDisk(d)
    requires ReadExact(disk, Lba(d, d.sectors - 1), d.sectorSize) == Some(BackupHeader(d))
    requires ReadExact(disk, Lba(d, d.sectors - 33), ARRAY_BYTES) == Some(EncodeSlots(d.backup, 0))
    ensures GptCopyAt(disk, d.sectors - 1, d.sectorSize, utf16) == GptCopy(true, DescribedFrom(d.backup, 0, utf16), 1)
  {
    hide Lba, SatMul, Header, EncodeSlots, GptCopyAt, ReadExact, DescribedFrom;
    SectorsFit(d);
    LbaExact(d, d.sectors - 1);
    LbaExact(d, d.sectors - 33);
    CopyRoundTrip(disk, d.sectorSize, utf16, d.sectors - 1, 1, d.sectors - 35, d.diskGuid, d.sectors - 33, d.backup,
                  d.pad2);
  }

  lemma PrimaryRoundTrip(disk: seq<byte>, d: GptDisk, utf16: Utf16)
    requires ValidDisk(d)
    requires ReadExact(disk, Lba(d, 1), d.sectorSize) == Some(PrimaryHeader(d))
    requires ReadExact(disk, Lba(d, 2), ARRAY_BYTES) == Some(EncodeSlots(d.primary, 0))
    ensures GptCopyAt(disk, 1, d.sectorSize, utf16) == GptCopy(true, DescribedFrom(d.primary, 0, utf16), d.sectors - 1)
  {
    hide Lba, SatMul, Header, EncodeSlots, GptCopyAt, ReadExact, DescribedFrom;
    SectorsFit(d);
    LbaExact(d, 1);
    LbaExact(d, 2);
    CopyRoundTrip(disk, d.sectorSize, utf16, 1, d.sectors - 1, d.sectors - 35, d.diskGuid, 2, d.primary, d.pad1);
  }

  /**
   Parsing undoes building: exactly the used entries come back, in order, both copies are valid, the
   backup is where the primary says, and the two copies differ just when their tables describe
   different partitions.
   */
  lemma GptRoundTrip(d: GptDisk, utf16: Utf16)
    requires ValidDisk(d)
    ensures var disk := Image(d);
            var p, b := DescribedFrom(d.primary, 0, utf16), DescribedFrom(d.backup, 0, utf16);
            DiskLayoutOf(disk, |disk|, d.sectorSize, utf16)
            == Ok(DiskLayout(d.sectorSize, d.sectors, Gpt, p, true, true, true, p != b, false, 1, |p|))
  {
    hide Lba, ImageOver, EncodeSlots, DiskLayoutOf, ReadExact, PrimaryHeader, DescribedFrom, ProtectiveMbr,
         MbrImage.DescribedSlot, MbrImage.HoldsMbr, ProtectiveTable;
    var entries := EncodeSlots(d.primary, 0);
    Placement(d, ProtectiveMbr(d), entries);
    PrimaryRoundTrip(Image(d), d, utf16);
    ProtectiveOnly(Image(d), d);
    ImageLayout(d, ProtectiveMbr(d), MbrOf(Image(d), d.sectorSize).value, entries, utf16,
                GptCopyAt(Image(d), 1, d.sectorSize, utf16));
  }

  lemma ProtectiveOnly(disk: seq<byte>, d: GptDisk)
    requires ValidDisk(d) && ReadExact(disk, 0, d.sectorSize) == Some(ProtectiveMbr(d))
    ensures var mbr := MbrOf(disk, d.sectorSize);
            mbr.Ok? && !HasOther(mbr.value) && mbr.value.hasProtective && |mbr.value.partitions| == 1
  {
    hide MbrOf, ProtectiveMbr, ReadExact;
    ProtectiveRoundTrip(disk, d);
  }

  /**
   With a master boot record that holds other partitions too, the disk is hybrid: its partitions are those
   of the GPT, and those of the MBR and of its containers are counted.
   */
  lemma HybridRoundTrip(d: GptDisk, m: MbrImage.MbrTable, cs: seq<MbrImage.Chain>, utf16: Utf16)
    requires ValidDisk(d) && MbrImage.ValidMbr(m) && |m.pad| == d.sectorSize - 512
    requires var disk := ImageOver(d, MbrImage.MbrSector(m), EncodeSlots(d.primary, 0));
             MbrImage.HoldsChains(disk, d.sectorSize, MbrImage.Containers(m.slots, 0), cs)
    requires exists i | 0 <= i < 4 :: m.slots[i].typeByte != 0 && m.slots[i].typeByte != 0xEE
    ensures var disk := ImageOver(d, MbrImage.MbrSector(m), EncodeSlots(d.primary, 0));
            var p, b := DescribedFrom(d.primary, 0, utf16), DescribedFrom(d.backup, 0, utf16);
            DiskLayoutOf(disk, |disk|, d.sectorSize, utf16)
            == Ok(DiskLayout(d.sectorSize, d.sectors, Hybrid, p, MbrImage.HasType(m, 0xEE), true, true, p != b, false,
                             |MbrImage.DescribedMbr(m, cs)|, |p|))
  {
    hide Lba, ImageOver, EncodeSlots, DiskLayoutOf, ReadExact, PrimaryHeader, DescribedFrom, MbrImage.MbrSector,
         MbrImage.HoldsChains, MbrImage.DescribedMbr, MbrOf, MbrImage.Containers, MbrImage.ValidChains, HasOther,
         MbrImage.HasType, GptCopyAt;
    var entries, mbr := EncodeSlots(d.primary, 0), MbrImage.MbrSector(m);
    var disk := ImageOver(d, mbr, entries);
    Placement(d, mbr, entries);
    PrimaryRoundTrip(disk, d, utf16);
    HybridMbr(disk, d.sectorSize, m, cs);
    ImageLayout(d, mbr, MbrOf(disk, d.sectorSize).value, entries, utf16, GptCopyAt(disk, 1, d.sectorSize, utf16));
  }

  lemma HybridMbr(disk: seq<byte>, ss: nat, m: MbrImage.MbrTable, cs: seq<MbrImage.Chain>)
    requires MbrImage.HoldsMbr(disk, ss, m, cs)
    requires exists i | 0 <= i < 4 :: m.slots[i].typeByte != 0 && m.slots[i].typeByte != 0xEE
    ensures MbrOf(disk, ss) == Ok(MbrInfo(true, MbrImage.DescribedMbr(m, cs), MbrImage.HasType(m, 0xEE)))
    ensures HasOther(MbrOf(disk, ss).value)
  {
    hide MbrImage.MbrSector, MbrImage.HoldsChain, MbrImage.DescribedMbr, MbrImage.Containers, ReadExact, MbrOf;
    MbrImage.MbrRoundTrip(disk, ss, m, cs);
    OtherDescribed(m, cs);
  }

  lemma OtherDescribed(m: MbrImage.MbrTable, cs: seq<MbrImage.Chain>)
    requires MbrImage.ValidMbr(m) && MbrImage.ValidChains(MbrImage.Containers(m.slots, 0), cs)
    requires exists i | 0 <= i < 4 :: m.slots[i].typeByte != 0 && m.slots[i].typeByte != 0xEE
    ensures var ps := MbrImage.DescribedMbr(m, cs);
            exists k :: 0 <= k < |ps| && ps[k].typeByte != Some(0xEE)
  {
    hide MbrImage.DescribedSlots, MbrImage.DescribedChains, MbrImage.Containers;
    var i :| 0 <= i < 4 && m.slots[i].typeByte != 0 && m.slots[i].typeByte != 0xEE;
    var k := SlotDescribed(m.slots, 0, i);
    assert MbrImage.DescribedMbr(m, cs)[k] == MbrImage.DescribedSlots(m.slots, 0)[k];
  }

  lemma {:induction false} SlotDescribed(slots: seq<MbrImage.Slot>, from: nat, i: nat) returns (k: nat)
    requires from <= i < |slots| && slots[i].typeByte != 0
    ensures k < |MbrImage.DescribedSlots(slots, from)|
    ensures MbrImage.DescribedSlots(slots, from)[k] == MbrImage.DescribedSlot(slots[i], i)
    decreases i - from
  {
    hide MbrImage.DescribedSlot, MbrImage.DescribedSlots;
    MbrImage.SlotsTurn(slots, from);
    if from == i {
      k := 0;
    } else {
      var j := SlotDescribed(slots, from + 1, i);
      k := if slots[from].typeByte != 0 then j + 1 else j;
    }
  }

  /**
   A burst of up to four damaged bytes in the primary entries is noticed, and the layout read is the
   backup's.
   */
  lemma DamagedPrimaryFallsBack(d: GptDisk, damaged: seq<byte>, at: nat, utf16: Utf16)
    requires ValidDisk(d) && BurstDiff(EncodeSlots(d.primary, 0), damaged, at)
    ensures var disk := ImageWith(d, damaged);
            var b := DescribedFrom(d.backup, 0, utf16);
            DiskLayoutOf(disk, |disk|, d.sectorSize, utf16)
            == Ok(DiskLayout(d.sectorSize, d.sectors, Gpt, b, true, false, true, false, false, 1, |b|))
  {
    hide Lba, ImageOver, EncodeSlots, DiskLayoutOf, ReadExact, DescribedFrom, Header, SatMul, Crc32, HeaderIntact,
         EntriesLbaOf, EntryCountOf, EntrySizeOf, EntriesCrcOf, ProtectiveMbr, MbrImage.DescribedSlot,
         MbrImage.HoldsMbr, ProtectiveTable;
    var ss := d.sectorSize;
    var disk, disk' := Image(d), ImageWith(d, damaged);
    Placement(d, ProtectiveMbr(d), EncodeSlots(d.primary, 0));
    Placement(d, ProtectiveMbr(d), damaged);
    PrimaryRoundTrip(disk, d, utf16);
    LbaExact(d, 1);
    LbaExact(d, 2);
    SectorsFit(d);
    HeaderRoundTrip(1, d.sectors - 1, d.sectors - 35, d.diskGuid, 2, d.primary, d.pad1);
    EntryDamageDetected(disk, disk', 1, ss, utf16, at);
    ProtectiveOnly(disk', d);
    ImageLayout(d, ProtectiveMbr(d), MbrOf(disk', ss).value, damaged, utf16, GptCopyAt(disk', 1, ss, utf16));
  }

  /* GUID text */

  lemma HexInjective(a: byte, b: byte)
    requires HexDigit(a / 16) == HexDigit(b / 16) && HexDigit(a % 16) == HexDigit(b % 16)
    ensures a == b
  {
  }

  // Where byte `k` of a GUID appears in its text.
  function GuidColumn(k: nat): nat
    requires k < 16
  {
    [6, 4, 2, 0, 11, 9, 16, 14, 19, 21, 24, 26, 28, 30, 32, 34][k]
  }

  lemma GuidTextColumns(g: seq<byte>, k: nat)
    requires |g| == 16 && k < 16
    ensures |GuidText(g)| == 36
    ensures GuidText(g)[GuidColumn(k)] == HexDigit(g[k] / 16) && GuidText(g)[GuidColumn(k) + 1] == HexDigit(g[k] % 16)
  {
    hide HexDigit;
  }

  /** The text form loses nothing: equal texts come from equal GUIDs. */
  lemma GuidTextInjective(a: seq<byte>, b: seq<byte>)
    requires |a| == 16 && |b| == 16 && GuidText(a) == GuidText(b)
    ensures a == b
  {
    forall k | 0 <= k < 16
      ensures a[k] == b[k]
    {
      hide GuidText, HexDigit;
      GuidTextColumns(a, k);
      GuidTextColumns(b, k);
      HexInjective(a[k], b[k]);
    }
  }

  lemma HexDigits(n: nat)
    requires n < 16
    ensures HexDigit(n) == "0123456789abcdef"[n]
  {
  }

  lemma GuidDashes(g: seq<byte>)
    requires |g| == 16
    ensures |GuidText(g)| == 36
    ensures GuidText(g)[8] == GuidText(g)[13] == GuidText(g)[18] == GuidText(g)[23] == '-'
  {
    hide HexDigit;
  }

  /**
   The text has dashes behind 8, 12, 16 and 20 digits, and at each column the digit of its half byte, in lower case.
   */
  lemma GuidTextLayout(g: seq<byte>, k: nat)
    requires |g| == 16 && k < 16
    ensures var text := GuidText(g);
            && |text| == 36 && text[8] == text[13] == text[18] == text[23] == '-'
            && text[GuidColumn(k)] == "0123456789abcdef"[g[k] / 16]
            && text[GuidColumn(k) + 1] == "0123456789abcdef"[g[k] % 16]
  {
    hide GuidText, HexDigit;
    GuidDashes(g);
    GuidTextColumns(g, k);
    HexDigits(g[k] / 16);
    HexDigits(g[k] % 16);
  }
}
