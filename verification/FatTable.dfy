/** Pointer maps packed as FAT12, FAT16, FAT32 and exFAT tables, and the chains read back from them. */
module FatTable {
  import opened Bytes
  import opened ClusterChain

  // Two 12-bit entries in three bytes: the middle byte is shared.
  function Pack12(cells: seq<nat>): (b: seq<byte>)
    requires forall k | 0 <= k < |cells| :: cells[k] < 0x1000
    ensures |b| == (|cells| + 1) / 2 * 3
  {
    if cells == [] then []
    else if |cells| == 1 then PackPair(cells[0], 0)
    else PackPair(cells[0], cells[1]) + Pack12(cells[2..])
  }

  function PackCells(cells: seq<nat>, width: nat): (b: seq<byte>)
    ensures |b| == width * |cells|
  {
    if cells == [] then [] else LeBytes(cells[0], width) + PackCells(cells[1..], width)
  }

  // The values a table of each type can hold. FAT32 keeps four bits above the pointer.
  function CellLimit(t: FatType): nat {
    match t
    case Fat12 => 0x1000
    case Fat16 => 0x1_0000
    case Fat32 => 0x1_0000_0000
  }

  predicate ValidCells(t: FatType, cells: seq<nat>) {
    forall k | 0 <= k < |cells| :: cells[k] < CellLimit(t)
  }

  function PackFat(t: FatType, cells: seq<nat>): seq<byte>
    requires ValidCells(t, cells)
  {
    match t
    case Fat12 => Pack12(cells)
    case Fat16 => PackCells(cells, 2)
    case Fat32 => PackCells(cells, 4)
  }

  function CellLink(t: FatType, cell: nat): Link {
    Classify(t, if t.Fat32? then cell % 0x1000_0000 else cell)
  }

  // The pointer map itself; clusters beyond it have no entry.
  function TableLinks(t: FatType, cells: seq<nat>): Links {
    (c: nat) => if c < |cells| then CellLink(t, cells[c]) else Unreadable
  }

  function ExfatTableLinks(cells: seq<nat>): Links {
    (c: nat) => if c < |cells| then ClassifyExfat(cells[c]) else Unreadable
  }

  lemma LeTwo(a: byte, b: byte)
    ensures Le([a, b]) == a + 256 * b
  {
    assert [a, b][1..] == [b];
    assert Le([b]) == b;
  }

  lemma EvenCell(x: nat, shared: nat)
    requires x < 0x1000 && shared < 16
    ensures (x % 256 + 256 * (x / 256 + 16 * shared)) % 0x1000 == x
  {
    assert x % 256 + 256 * (x / 256 + 16 * shared) == x + 0x1000 * shared;
  }

  lemma OddCell(x: nat, y: nat)
    requires x < 0x1000 && y < 0x1000
    ensures (x / 256 + 16 * (y % 16) + 256 * (y / 16)) / 16 == y
  {
    assert x / 256 < 16;
    assert x / 256 + 16 * (y % 16) + 256 * (y / 16) == x / 256 + 16 * y;
  }

  function Entry12(table: seq<byte>, c: nat): nat
    requires c * 3 / 2 + 2 <= |table|
  {
    var raw := Le(table[c * 3 / 2..c * 3 / 2 + 2]);
    if c % 2 == 0 then raw % 0x1000 else raw / 16
  }

  function PackPair(x: nat, y: nat): (b: seq<byte>)
    requires x < 0x1000 && y < 0x1000
    ensures |b| == 3
  {
    [x % 256, x / 256 + 16 * (y % 16), y / 16]
  }

  lemma PairCells(x: nat, y: nat, rest: seq<byte>)
    requires x < 0x1000 && y < 0x1000
    ensures Entry12(PackPair(x, y) + rest, 0) == x && Entry12(PackPair(x, y) + rest, 1) == y
  {
    var b := PackPair(x, y);
    assert (b + rest)[0..2] == [b[0], b[1]] && (b + rest)[1..3] == [b[1], b[2]];
    LeTwo(b[0], b[1]);
    LeTwo(b[1], b[2]);
    EvenCell(x, y % 16);
    OddCell(x, y);
  }

  // Reading entry `c` sees only what was packed as entry `c`, whatever its neighbours in the shared byte.
  lemma {:induction false} Pack12At(cells: seq<nat>, c: nat)
    requires ValidCells(Fat12, cells) && c < |cells|
    ensures c * 3 / 2 + 2 <= |Pack12(cells)| && Entry12(Pack12(cells), c) == cells[c]
    decreases |cells|
  {
    hide Le, PackPair;
    if |cells| == 1 {
      PairCells(cells[0], 0, []);
      assert Pack12(cells) == PackPair(cells[0], 0) + [];
    } else {
      PairCells(cells[0], cells[1], Pack12(cells[2..]));
      if c >= 2 {
        Pack12At(cells[2..], c - 2);
        EntryBeyond(PackPair(cells[0], cells[1]), Pack12(cells[2..]), c - 2);
      }
    }
  }

  lemma EntryBeyond(pair: seq<byte>, rest: seq<byte>, c: nat)
    requires |pair| == 3 && c * 3 / 2 + 2 <= |rest|
    ensures (c + 2) * 3 / 2 + 2 <= |pair + rest| && Entry12(pair + rest, c + 2) == Entry12(rest, c)
  {
    hide Le;
    var o := c * 3 / 2;
    assert (c + 2) * 3 / 2 == o + 3;
    assert (pair + rest)[o + 3..o + 5] == rest[o..o + 2];
  }

  lemma {:induction false} PackCellsAt(cells: seq<nat>, width: nat, c: nat)
    requires c < |cells| && cells[c] < Pow256(width)
    ensures width * c + width <= |PackCells(cells, width)|
    ensures Le(PackCells(cells, width)[width * c..width * c + width]) == cells[c]
    decreases |cells|
  {
    hide Le, LeBytes, Pow256;
    var b := PackCells(cells, width);
    if c == 0 {
      assert b[0..width] == LeBytes(cells[0], width);
      LeRoundTrip(cells[0], width);
    } else {
      var rest := PackCells(cells[1..], width);
      PackCellsAt(cells[1..], width, c - 1);
      var o := width * (c - 1);
      assert width * c == o + width;
      assert b[o + width..o + width + width] == rest[o..o + width];
    }
  }

  // The table lies at `at`, and no offset into it saturates.
  predicate TableAt(disk: seq<byte>, at: nat, table: seq<byte>) {
    at + |table| <= |disk| <= U64_MAX && disk[at..at + |table|] == table
  }

  lemma TableFits(disk: seq<byte>, at: nat, table: seq<byte>)
    requires TableAt(disk, at, table)
    ensures |table| <= U64_MAX
  {
  }

  lemma TableRead(disk: seq<byte>, at: nat, table: seq<byte>, o: nat, n: nat)
    requires TableAt(disk, at, table) && o + n <= |table|
    ensures ReadExact(disk, SatAdd(at, o), n) == Some(table[o..o + n])
  {
    var pre, post := disk[..at], disk[at + |table|..];
    assert disk == pre + table + post;
    assert (pre + table + post)[at + o..at + o + n] == table[o..o + n];
  }

  lemma CellPair(cells: seq<nat>, c: nat)
    requires c < |cells| && cells[c] < 0x1_0000
    ensures c * 2 + 2 <= |PackCells(cells, 2)| && Le(PackCells(cells, 2)[c * 2..c * 2 + 2]) == cells[c]
  {
    hide Le, PackCells, Pow256;
    Pow256Values();
    PackCellsAt(cells, 2, c);
  }

  lemma CellBytes(cells: seq<nat>, c: nat)
    requires c < |cells| && cells[c] < U32_LIMIT
    ensures c * 4 + 4 <= |PackCells(cells, 4)| && Le(PackCells(cells, 4)[c * 4..c * 4 + 4]) == cells[c]
  {
    hide Le, PackCells, Pow256;
    Pow256Values();
    PackCellsAt(cells, 4, c);
  }

  lemma Lookup12(disk: seq<byte>, partOffset: nat, bpb: FatBootSector, table: seq<byte>, c: nat)
    requires bpb.fatType.Fat12? && TableAt(disk, FatOffset(partOffset, bpb), table) && c * 3 / 2 + 2 <= |table|
    ensures ReadNextCluster(disk, partOffset, bpb, c) == Classify(Fat12, Entry12(table, c))
  {
    hide FatOffset, Le, SatAdd, ReadExact, TableAt, Classify;
    TableRead(disk, FatOffset(partOffset, bpb), table, c * 3 / 2, 2);
  }

  // The lookup of an entry at `o` in a table of 16-bit or 32-bit entries.
  lemma LookupAt(disk: seq<byte>, partOffset: nat, bpb: FatBootSector, table: seq<byte>, c: nat, o: nat, v: nat)
    requires TableAt(disk, FatOffset(partOffset, bpb), table)
    requires match bpb.fatType
             case Fat12 => false
             case Fat16 => o == c * 2 && o + 2 <= |table| && v == Le(table[o..o + 2])
             case Fat32 => o == c * 4 && o + 4 <= |table| && v == Le(table[o..o + 4])
    ensures ReadNextCluster(disk, partOffset, bpb, c)
            == Classify(bpb.fatType, if bpb.fatType.Fat32? then v % 0x1000_0000 else v)
  {
    hide FatOffset, Le, SatAdd, ReadExact, TableAt, Classify;
    TableRead(disk, FatOffset(partOffset, bpb), table, o, if bpb.fatType.Fat16? then 2 else 4);
  }

  lemma EncodedLink(disk: seq<byte>, partOffset: nat, bpb: FatBootSector, cells: seq<nat>, c: nat)
    requires ValidCells(bpb.fatType, cells) && TableAt(disk, FatOffset(partOffset, bpb), PackFat(bpb.fatType, cells))
    requires c < |cells|
    ensures ReadNextCluster(disk, partOffset, bpb, c) == CellLink(bpb.fatType, cells[c])
  {
    hide FatOffset, Le, Pack12, PackCells, TableAt, Classify, ReadNextCluster, Entry12;
    match bpb.fatType {
      case Fat12 =>
        Pack12At(cells, c);
        Lookup12(disk, partOffset, bpb, Pack12(cells), c);
      case Fat16 =>
        CellPair(cells, c);
        LookupAt(disk, partOffset, bpb, PackCells(cells, 2), c, c * 2, cells[c]);
      case Fat32 =>
        CellBytes(cells, c);
        LookupAt(disk, partOffset, bpb, PackCells(cells, 4), c, c * 4, cells[c]);
    }
  }

  lemma EntryRead(disk: seq<byte>, at: nat, table: seq<byte>, c: nat)
    requires TableAt(disk, at, table) && c * 4 + 4 <= |table|
    ensures ReadExact(disk, SatAdd(at, SatMul(c, 4)), 4) == Some(table[c * 4..c * 4 + 4])
  {
    hide ReadExact, SatAdd, TableAt;
    TableFits(disk, at, table);
    TableRead(disk, at, table, c * 4, 4);
  }

  lemma EncodedExfatLink(disk: seq<byte>, partOffset: nat, bpb: ExfatBootSector, cells: seq<nat>, c: nat)
    requires ValidCells(Fat32, cells) && TableAt(disk, ExfatTable(partOffset, bpb), PackCells(cells, 4))
    requires c < |cells|
    ensures ExfatLinks(disk, partOffset, bpb)(c) == ClassifyExfat(cells[c])
  {
    hide ExfatTable, Le, PackCells, ReadExact, SatAdd, SatMul, ClassifyExfat, TableAt;
    CellBytes(cells, c);
    EntryRead(disk, ExfatTable(partOffset, bpb), PackCells(cells, 4), c);
  }

  /* Chains read from the disk are the chains of the map */

  // Two pointer maps agree on every cluster the second can look up.
  ghost predicate AgreeWhereReadable(a: Links, b: Links) {
    forall c: nat :: b(c) != Unreadable ==> a(c) == b(c)
  }

  lemma LastIsReadable(links: Links, start: nat, max: nat, w: seq<nat>)
    requires !RunsOff(links, start, max) && IsWalk(links, start, w) && 0 < |w| <= max
    ensures links(w[|w| - 1]) != Unreadable
  {
  }

  // A walk of `a` within the limit is a walk of `b` that can be looked up all along.
  lemma {:induction false} WalkIsShared(a: Links, b: Links, start: nat, max: nat, chain: seq<nat>, n: nat)
    requires AgreeWhereReadable(a, b) && !RunsOff(b, start, max)
    requires IsWalk(a, start, chain) && n <= |chain| <= max
    ensures IsWalk(b, start, chain[..n]) && forall i | 0 <= i < n :: b(chain[i]) != Unreadable
    decreases n
  {
    hide RunsOff;
    if n > 0 {
      WalkIsShared(a, b, start, max, chain, n - 1);
      if n > 1 {
        assert b(chain[n - 2]) == a(chain[n - 2]) == Next(chain[n - 1]);
      }
      var w := chain[..n];
      assert w == chain[..n - 1] + [chain[n - 1]];
      assert IsWalk(b, start, w);
      LastIsReadable(b, start, max, w);
    }
  }

  // The same chain, then, if the second map's own walk does not run off it.
  lemma SameChains(a: Links, b: Links, start: nat, max: nat, r: ChainResult)
    requires AgreeWhereReadable(a, b) && !RunsOff(b, start, max) && ChainSpec(a, start, max, r)
    ensures r.Chain? && (start >= 2 ==> Longest(b, start, max, r.clusters))
  {
    hide RunsOff;
    if start >= 2 {
      if r.IoError? {
        var w := RunningOff(a, start, max);
        WalkIsShared(a, b, start, max, w, |w|);
        assert false;
      }
      var chain := r.clusters;
      WalkIsShared(a, b, start, max, chain, |chain|);
      assert chain[..|chain|] == chain;
    }
  }

  lemma RunningOff(links: Links, start: nat, max: nat) returns (w: seq<nat>)
    requires RunsOff(links, start, max)
    ensures IsWalk(links, start, w) && 0 < |w| <= max && links(w[|w| - 1]) == Unreadable
  {
    w :| IsWalk(links, start, w) && 0 < |w| <= max && links(w[|w| - 1]) == Unreadable;
  }

  /**
   Reading undoes packing: on any disk holding a pointer map as a FAT12, FAT16 or FAT32 table, wild
   pointers and bad-cluster marks included, the only result that meets the reader's contract is the
   longest duplicate-free walk of the map itself, unless that very walk leaves the map.
   */
  lemma PackedChain(disk: seq<byte>, partOffset: nat, bpb: FatBootSector, cells: seq<nat>, start: nat, max: nat,
                    r: ChainResult)
    requires ValidCells(bpb.fatType, cells) && TableAt(disk, FatOffset(partOffset, bpb), PackFat(bpb.fatType, cells))
    requires !RunsOff(TableLinks(bpb.fatType, cells), start, max)
    requires ChainSpec(FatLinks(disk, partOffset, bpb), start, max, r)
    ensures r.Chain? && (start >= 2 ==> Longest(TableLinks(bpb.fatType, cells), start, max, r.clusters))
  {
    hide FatOffset, PackFat, TableAt, ReadNextCluster, CellLink, RunsOff;
    var a, b := FatLinks(disk, partOffset, bpb), TableLinks(bpb.fatType, cells);
    forall c: nat | c < |cells|
      ensures a(c) == b(c)
    {
      EncodedLink(disk, partOffset, bpb, cells, c);
    }
    SameChains(a, b, start, max, r);
  }

  /** The exFAT reader meets the same specification under its own end marks. */
  lemma PackedExfatChain(disk: seq<byte>, partOffset: nat, bpb: ExfatBootSector, cells: seq<nat>, start: nat, max: nat,
                         r: ChainResult)
    requires ValidCells(Fat32, cells) && TableAt(disk, ExfatTable(partOffset, bpb), PackCells(cells, 4))
    requires !RunsOff(ExfatTableLinks(cells), start, max)
    requires ChainSpec(ExfatLinks(disk, partOffset, bpb), start, max, r)
    ensures r.Chain? && (start >= 2 ==> Longest(ExfatTableLinks(cells), start, max, r.clusters))
  {
    hide ExfatTable, PackCells, TableAt, ExfatLinks, ClassifyExfat, RunsOff;
    var a, b := ExfatLinks(disk, partOffset, bpb), ExfatTableLinks(cells);
    forall c: nat | c < |cells|
      ensures a(c) == b(c)
    {
      EncodedExfatLink(disk, partOffset, bpb, cells, c);
    }
    SameChains(a, b, start, max, r);
  }

  /* Where chains end and go on, mark by mark */

  // The pointer a cell holds; FAT32 keeps four bits above it.
  function Pointer(t: FatType, cell: nat): nat {
    if t.Fat32? then cell % 0x1000_0000 else cell
  }

  // Free, reserved, and end-of-chain values end a FAT chain.
  predicate EndsFat(t: FatType, pointer: nat) {
    || pointer < 2
    || match t
       case Fat12 => pointer in {0xFF8, 0xFF9, 0xFFA, 0xFFB, 0xFFC, 0xFFD, 0xFFE, 0xFFF}
       case Fat16 => 0xFFF8 <= pointer <= 0xFFFF
       case Fat32 => 0x0FFF_FFF8 <= pointer <= 0x0FFF_FFFF
  }

  predicate EndsExfat(pointer: nat) {
    pointer < 2 || 0xFFFF_FFF7 <= pointer <= 0xFFFF_FFFF
  }

  // Behind position `i` stands `pointer`, unless the chain is full or holds it already.
  predicate GoesOn(chain: seq<nat>, i: nat, max: nat, pointer: nat) {
    if i + 1 < |chain| then chain[i + 1] == pointer else |chain| == max || pointer in chain
  }

  lemma WalkStep(links: Links, start: nat, max: nat, chain: seq<nat>, i: nat)
    requires Longest(links, start, max, chain) && i < |chain|
    ensures links(chain[i]) == End ==> i + 1 == |chain|
    ensures links(chain[i]).Next? ==> GoesOn(chain, i, max, links(chain[i]).cluster)
  {
    if i + 1 < |chain| {
      assert links(chain[i]) == Next(chain[i + 1]);
    }
  }

  /**
   In every chain read from a packed FAT table, a cluster whose cell is free, reserved or an end mark is the
   last, and any other is followed by its pointer, unless the chain is full or holds that already.
   */
  lemma FatChainStep(disk: seq<byte>, partOffset: nat, bpb: FatBootSector, cells: seq<nat>, start: nat, max: nat,
                     r: ChainResult, i: nat)
    requires ValidCells(bpb.fatType, cells) && TableAt(disk, FatOffset(partOffset, bpb), PackFat(bpb.fatType, cells))
    requires ChainSpec(FatLinks(disk, partOffset, bpb), start, max, r) && r.Chain?
    requires i < |r.clusters| && r.clusters[i] < |cells|
    ensures var pointer := Pointer(bpb.fatType, cells[r.clusters[i]]);
            if EndsFat(bpb.fatType, pointer) then i + 1 == |r.clusters| else GoesOn(r.clusters, i, max, pointer)
  {
    hide FatOffset, PackFat, TableAt, ReadNextCluster, RunsOff, Longest, FatLinks, GoesOn;
    var links := FatLinks(disk, partOffset, bpb);
    CellLinks(disk, partOffset, bpb, cells, r.clusters[i]);
    WalkStep(links, start, max, r.clusters, i);
  }

  lemma CellLinks(disk: seq<byte>, partOffset: nat, bpb: FatBootSector, cells: seq<nat>, c: nat)
    requires ValidCells(bpb.fatType, cells) && TableAt(disk, FatOffset(partOffset, bpb), PackFat(bpb.fatType, cells))
    requires c < |cells|
    ensures var pointer := Pointer(bpb.fatType, cells[c]);
            FatLinks(disk, partOffset, bpb)(c) == if EndsFat(bpb.fatType, pointer) then End else Next(pointer)
  {
    hide FatOffset, PackFat, TableAt, ReadNextCluster;
    EncodedLink(disk, partOffset, bpb, cells, c);
    assert cells[c] < CellLimit(bpb.fatType);
  }

  /** The same for exFAT, whose chains end at the bad-cluster mark too. */
  lemma ExfatChainStep(disk: seq<byte>, partOffset: nat, bpb: ExfatBootSector, cells: seq<nat>, start: nat, max: nat,
                       r: ChainResult, i: nat)
    requires ValidCells(Fat32, cells) && TableAt(disk, ExfatTable(partOffset, bpb), PackCells(cells, 4))
    requires ChainSpec(ExfatLinks(disk, partOffset, bpb), start, max, r) && r.Chain?
    requires i < |r.clusters| && r.clusters[i] < |cells|
    ensures var pointer := cells[r.clusters[i]];
            if EndsExfat(pointer) then i + 1 == |r.clusters| else GoesOn(r.clusters, i, max, pointer)
  {
    hide ExfatTable, PackCells, TableAt, ExfatLinks, RunsOff, Longest, GoesOn;
    EncodedExfatLink(disk, partOffset, bpb, cells, r.clusters[i]);
    assert cells[r.clusters[i]] < CellLimit(Fat32);
    WalkStep(ExfatLinks(disk, partOffset, bpb), start, max, r.clusters, i);
  }

  /** A file of one cluster, whose cell ends the chain, is read as that cluster, and without an error. */
  lemma EndMarkEnds(disk: seq<byte>, partOffset: nat, bpb: FatBootSector, cells: seq<nat>, c: nat, max: nat,
                    r: ChainResult)
    requires ValidCells(bpb.fatType, cells) && TableAt(disk, FatOffset(partOffset, bpb), PackFat(bpb.fatType, cells))
    requires 2 <= c < |cells| && EndsFat(bpb.fatType, Pointer(bpb.fatType, cells[c])) && max > 0
    requires ChainSpec(FatLinks(disk, partOffset, bpb), c, max, r)
    ensures r == Chain([c])
  {
    hide FatOffset, PackFat, TableAt, ReadNextCluster, FatLinks, EndsFat;
    var links := FatLinks(disk, partOffset, bpb);
    CellLinks(disk, partOffset, bpb, cells, c);
    SingleCluster(links, c, max, r);
  }

  lemma SingleCluster(links: Links, c: nat, max: nat, r: ChainResult)
    requires c >= 2 && max > 0 && links(c) == End && ChainSpec(links, c, max, r)
    ensures r == Chain([c])
  {
    assert Longest(links, c, max, [c]);
    ReadableChain(links, c, max, [c]);
    assert r.Chain?;
    LongestUnique(links, c, max, [c], r.clusters);
  }

  function BadMark(t: FatType): nat {
    match t
    case Fat12 => 0xFF7
    case Fat16 => 0xFFF7
    case Fat32 => 0x0FFF_FFF7
  }

  /** So FAT chains read the bad-cluster mark as a pointer. */
  lemma BadMarkFollowed(disk: seq<byte>, partOffset: nat, bpb: FatBootSector, cells: seq<nat>, start: nat, max: nat,
                        r: ChainResult, i: nat)
    requires ValidCells(bpb.fatType, cells) && TableAt(disk, FatOffset(partOffset, bpb), PackFat(bpb.fatType, cells))
    requires ChainSpec(FatLinks(disk, partOffset, bpb), start, max, r) && r.Chain?
    requires i < |r.clusters| && r.clusters[i] < |cells|
    requires Pointer(bpb.fatType, cells[r.clusters[i]]) == BadMark(bpb.fatType)
    ensures GoesOn(r.clusters, i, max, BadMark(bpb.fatType))
  {
    hide FatOffset, PackFat, TableAt, FatLinks, RunsOff, Longest, GoesOn;
    FatChainStep(disk, partOffset, bpb, cells, start, max, r, i);
  }

  /** And exFAT chains end at it. */
  lemma BadMarkEnds(disk: seq<byte>, partOffset: nat, bpb: ExfatBootSector, cells: seq<nat>, start: nat, max: nat,
                    r: ChainResult, i: nat)
    requires ValidCells(Fat32, cells) && TableAt(disk, ExfatTable(partOffset, bpb), PackCells(cells, 4))
    requires ChainSpec(ExfatLinks(disk, partOffset, bpb), start, max, r) && r.Chain? && i < |r.clusters|
    requires r.clusters[i] < |cells| && cells[r.clusters[i]] == 0xFFFF_FFF7
    ensures i + 1 == |r.clusters|
  {
    hide ExfatTable, PackCells, TableAt, ExfatLinks, RunsOff, Longest, GoesOn;
    ExfatChainStep(disk, partOffset, bpb, cells, start, max, r, i);
  }
}
