/**
 Zip files laid out as section 4.3 of PKWARE's APPNOTE says, by concatenation of their fields, and what
 inspection makes of them.
 */
module ZipImage {
  import opened Bytes
  import opened Archives
  import opened ArchiveItems

  /* Zip entries */

  datatype Method = Stored | Deflated | Other(code: u16)

  function MethodCode(m: Method): u16 {
    match m
    case Stored => 0
    case Deflated => 8
    case Other(code) => code
  }

  predicate ValidMethod(m: Method) {
    m.Other? ==> m.code != 0 && m.code != 8
  }

  // What a payload so compressed holds, as far as `limit` allows.
  function Unpacked(m: Method, payload: seq<byte>, limit: nat, lib: Library): Option<seq<byte>> {
    match m
    case Stored => Some(payload)
    case Deflated => lib.inflate(payload, limit)
    case Other(_) => None
  }

  // The fields of a central-directory record; `versions`, `times`, `disks` and the low attributes are free.
  datatype Member = Member(
    made: byte, host: byte, versions: seq<byte>, how: Method, times: seq<byte>, comp: u32, uncomp: u32,
    name: seq<byte>, extra: seq<byte>, comment: seq<byte>, disks: seq<byte>, dos: u16, mode: u16, offset: u32)

  // The fields of a local header.
  datatype Local = Local(
    versions: seq<byte>, how: Method, times: seq<byte>, comp: u32, uncomp: u32, name: seq<byte>, extra: seq<byte>)

  predicate ValidMember(m: Member) {
    && |m.versions| == 4 && |m.times| == 8 && |m.disks| == 4 && ValidMethod(m.how)
    && |m.name| < 0x1_0000 && |m.extra| < 0x1_0000 && |m.comment| < 0x1_0000
  }

  predicate ValidLocal(l: Local) {
    && |l.versions| == 4 && |l.times| == 8 && ValidMethod(l.how)
    && |l.name| < 0x1_0000 && |l.extra| < 0x1_0000
  }

  function MemberHead(m: Member): (b: seq<byte>)
    requires ValidMember(m)
    ensures |b| == 28
  {
    [0x50, 0x4B, 0x01, 0x02] + [m.made, m.host] + m.versions + LeBytes(MethodCode(m.how), 2) + m.times
    + LeBytes(m.comp, 4) + LeBytes(m.uncomp, 4)
  }

  function MemberTail(m: Member): (b: seq<byte>)
    requires ValidMember(m)
    ensures |b| == 18
  {
    LeBytes(|m.name|, 2) + LeBytes(|m.extra|, 2) + LeBytes(|m.comment|, 2) + m.disks + LeBytes(m.dos, 2)
    + LeBytes(m.mode, 2) + LeBytes(m.offset, 4)
  }

  function MemberBytes(m: Member): (b: seq<byte>)
    requires ValidMember(m)
    ensures |b| == 46 + |m.name| + |m.extra| + |m.comment|
  {
    MemberHead(m) + (MemberTail(m) + (m.name + (m.extra + m.comment)))
  }

  function LocalHead(l: Local): (b: seq<byte>)
    requires ValidLocal(l)
    ensures |b| == 30
  {
    [0x50, 0x4B, 0x03, 0x04] + l.versions + LeBytes(MethodCode(l.how), 2) + l.times
    + LeBytes(l.comp, 4) + LeBytes(l.uncomp, 4) + LeBytes(|l.name|, 2) + LeBytes(|l.extra|, 2)
  }

  function LocalBytes(l: Local): (b: seq<byte>)
    requires ValidLocal(l)
    ensures |b| == 30 + |l.name| + |l.extra|
  {
    LocalHead(l) + (l.name + l.extra)
  }

  lemma MemberHeadFields(m: Member)
    requires ValidMember(m)
    ensures var b := MemberHead(m);
            && b[0..4] == [0x50, 0x4B, 0x01, 0x02] && b[4..6] == [m.made, m.host]
            && b[10..12] == LeBytes(MethodCode(m.how), 2)
            && b[20..24] == LeBytes(m.comp, 4) && b[24..28] == LeBytes(m.uncomp, 4)
  {
    hide LeBytes;
  }

  lemma MemberTailFields(m: Member)
    requires ValidMember(m)
    ensures var b := MemberTail(m);
            && b[0..2] == LeBytes(|m.name|, 2) && b[2..4] == LeBytes(|m.extra|, 2) && b[4..6] == LeBytes(|m.comment|, 2)
            && b[10..14] == LeBytes(m.dos, 2) + LeBytes(m.mode, 2) && b[14..18] == LeBytes(m.offset, 4)
  {
    hide LeBytes;
    var x, y, z := LeBytes(|m.name|, 2), LeBytes(|m.extra|, 2), LeBytes(|m.comment|, 2);
    var w := LeBytes(m.dos, 2) + LeBytes(m.mode, 2);
    assert MemberTail(m) == x + y + z + m.disks + w + LeBytes(m.offset, 4);
    hide MemberTail;
    TailSlices(x, y, z, m.disks, w, LeBytes(m.offset, 4));
  }

  lemma TailSlices(x: seq<byte>, y: seq<byte>, z: seq<byte>, u: seq<byte>, w: seq<byte>, v: seq<byte>)
    requires |x| == |y| == |z| == 2 && |u| == |w| == |v| == 4
    ensures var b := x + y + z + u + w + v;
            b[0..2] == x && b[2..4] == y && b[4..6] == z && b[10..14] == w && b[14..18] == v
  {
  }

  lemma LocalHeadFields(l: Local)
    requires ValidLocal(l)
    ensures var b := LocalHead(l);
            && b[0..4] == [0x50, 0x4B, 0x03, 0x04] && b[8..10] == LeBytes(MethodCode(l.how), 2)
            && b[18..22] == LeBytes(l.comp, 4) && b[22..26] == LeBytes(l.uncomp, 4)
            && b[26..28] == LeBytes(|l.name|, 2) && b[28..30] == LeBytes(|l.extra|, 2)
  {
    hide LeBytes;
  }

  lemma LeAfterTwo(a: seq<byte>, b: seq<byte>)
    requires |a| == 2
    ensures Le(a + b) == Le(a) + 0x1_0000 * Le(b)
  {
    assert (a + b)[1..] == a[1..] + b && (a + b)[1..][1..] == b;
    var x: int, y: int := a[0], a[1];
    var tail := a[1..];
    assert tail[0] == a[1] && tail[1..] == [];
    assert Le(tail) == y;
    assert Le(a) == x + 256 * Le(tail);
  }

  /* A record read back */

  // What a central-directory record points at: a local header and the payload behind it.
  datatype ZipEntry = ZipEntry(member: Member, local: Local, payload: seq<byte>)

  predicate ValidEntry(e: ZipEntry) {
    ValidMember(e.member) && ValidLocal(e.local) && e.member.comp == |e.payload|
  }

  // The local header stands where the record says, and the payload follows.
  predicate HoldsEntry(data: seq<byte>, e: ZipEntry)
    requires ValidEntry(e)
  {
    HoldsAt(data, e.member.offset, LocalBytes(e.local) + e.payload)
  }

  // What is to be inspected inside, by the name, the method and the payload alone.
  function WrittenContent(name: string, how: Method, payload: seq<byte>, path: MediaPath, lib: Library): Content {
    if IsNestedArchiveName(name, lib) then
      var e := Unpacked(how, payload, 0x100_0000, lib);
      if e.Some? then Nested(e.value) else Nothing
    else if EndsWith(name, ".rels") then
      var e := Unpacked(how, payload, 0x10_0000, lib);
      if e.Some? then Relations(RelationshipFindings(e.value, path, lib)) else Nothing
    else Nothing
  }

  // What the names and attributes of an entry are reported for.
  function MemberFindings(e: ZipEntry, path: MediaPath, policy: Policy, lib: Library): seq<Finding> {
    var name := lib.decode(e.member.name);
    ReportIf(IsPathTraversalEntry(name), Finding(path, Traversal, name))
    + ReportIf(!policy.allowMacros && IsMacroName(name, lib), Finding(path, Macros, name))
    // A Unix mode whose file type is that of a symbolic link.
    + ReportIf(!policy.allowSymlinks && e.member.host == 3 && 0xA000 <= e.member.mode < 0xB000,
               Finding(path, SymbolicLink, name))
    + ReportIf(lib.decode(e.local.name) != name, Finding(path, NameMismatch, name))
  }

  lemma UnpackedIs(how: Method, payload: seq<byte>, limit: nat, lib: Library)
    requires ValidMethod(how)
    ensures Expand(payload, MethodCode(how), limit, lib) == Unpacked(how, payload, limit, lib)
  {
  }

  lemma ContentRoundTrip(data: seq<byte>, at: nat, payload: seq<byte>, how: Method, name: string, path: MediaPath,
                         lib: Library)
    requires HoldsAt(data, at, payload) && ValidMethod(how)
    ensures ContentOf(data, at, |payload|, MethodCode(how), name, path, lib)
            == WrittenContent(name, how, payload, path, lib)
  {
    hide IsNestedArchiveName, EndsWith, Unpacked, Expand, MethodCode;
    UnpackedIs(how, payload, 0x100_0000, lib);
    UnpackedIs(how, payload, 0x10_0000, lib);
  }

  lemma LocalFields(data: seq<byte>, at: nat, l: Local)
    requires ValidLocal(l) && HoldsAt(data, at, LocalBytes(l))
    ensures at + 30 + |l.name| + |l.extra| <= |data|
    ensures data[at..at + 4] == [0x50, 0x4B, 0x03, 0x04] && U32(data, at) == 0x04034B50
    ensures U16(data, at + 8) == MethodCode(l.how)
    ensures U32(data, at + 18) == l.comp && U32(data, at + 22) == l.uncomp
    ensures U16(data, at + 26) == |l.name| && U16(data, at + 28) == |l.extra|
    ensures data[at + 30..at + 30 + |l.name|] == l.name
  {
    hide HoldsAt, LocalHead, U16, U32, LeBytes, MethodCode;
    var b := LocalHead(l);
    LocalHeadFields(l);
    HeldPart(data, at, b, l.name + l.extra);
    HeldPart(data, at + 30, l.name, l.extra);
    HeldFits(data, at + 30 + |l.name|, l.extra);
    HeldSlice(data, at, b, 0, 4);
    LocalMagic();
    HeldU32(data, at, b, 0, 0x04034B50);
    HeldU16(data, at, b, 8, MethodCode(l.how));
    HeldU32(data, at, b, 18, l.comp);
    HeldU32(data, at, b, 22, l.uncomp);
    HeldU16(data, at, b, 26, |l.name|);
    HeldU16(data, at, b, 28, |l.extra|);
    HeldSlice(data, at + 30, l.name, 0, |l.name|);
    assert l.name[0..|l.name|] == l.name;
  }

  lemma LocalMagic()
    ensures LeBytes(0x04034B50, 4) == [0x50, 0x4B, 0x03, 0x04] && LeBytes(0x02014B50, 4) == [0x50, 0x4B, 0x01, 0x02]
  {
    assert LeBytes(0x04, 1) == [0x04] && LeBytes(0x02, 1) == [0x02];
    assert LeBytes(0x0403, 2) == [0x03, 0x04] && LeBytes(0x0201, 2) == [0x01, 0x02];
    assert LeBytes(0x04034B, 3) == [0x4B, 0x03, 0x04] && LeBytes(0x02014B, 3) == [0x4B, 0x01, 0x02];
  }

  lemma MemberFields(data: seq<byte>, at: nat, m: Member)
    requires ValidMember(m) && HoldsAt(data, at, MemberBytes(m))
    ensures at + 46 + |m.name| + |m.extra| + |m.comment| <= |data|
    ensures U32(data, at) == 0x02014B50 && U16(data, at + 10) == MethodCode(m.how)
    ensures U32(data, at + 20) == m.comp && U32(data, at + 24) == m.uncomp
    ensures U16(data, at + 28) == |m.name| && U16(data, at + 30) == |m.extra| && U16(data, at + 32) == |m.comment|
    ensures U32(data, at + 42) == m.offset
    ensures data[at + 46..at + 46 + |m.name|] == m.name
  {
    hide HoldsAt, MemberHead, MemberTail, U16, U32, LeBytes, MethodCode;
    var h, t := MemberHead(m), MemberTail(m);
    MemberHeadFields(m);
    MemberTailFields(m);
    HeldPart(data, at, h, t + (m.name + (m.extra + m.comment)));
    HeldPart(data, at + 28, t, m.name + (m.extra + m.comment));
    HeldPart(data, at + 46, m.name, m.extra + m.comment);
    HeldFits(data, at + 46 + |m.name|, m.extra + m.comment);
    LocalMagic();
    HeldU32(data, at, h, 0, 0x02014B50);
    HeldU16(data, at, h, 10, MethodCode(m.how));
    HeldU32(data, at, h, 20, m.comp);
    HeldU32(data, at, h, 24, m.uncomp);
    HeldU16(data, at + 28, t, 0, |m.name|);
    HeldU16(data, at + 28, t, 2, |m.extra|);
    HeldU16(data, at + 28, t, 4, |m.comment|);
    HeldU32(data, at + 28, t, 14, m.offset);
    HeldSlice(data, at + 46, m.name, 0, |m.name|);
    assert m.name[0..|m.name|] == m.name;
  }

  lemma MemberAttributes(data: seq<byte>, at: nat, m: Member)
    requires ValidMember(m) && HoldsAt(data, at, MemberBytes(m))
    ensures at + 46 <= |data|
    ensures U16(data, at + 4) / 256 == m.host && U32(data, at + 38) / 0x1000_0000 == m.mode / 0x1000
  {
    hide HoldsAt, MemberHead, MemberTail, LeBytes;
    var h, t := MemberHead(m), MemberTail(m);
    MemberHeadFields(m);
    MemberTailFields(m);
    HeldPart(data, at, h, t + (m.name + (m.extra + m.comment)));
    HeldPart(data, at + 28, t, m.name + (m.extra + m.comment));
    HeldFits(data, at + 28, t);
    HeldSlice(data, at, h, 4, 6);
    HeldSlice(data, at + 28, t, 10, 14);
    TwoBytes(m.made, m.host);
    HighHalf(m.dos, m.mode);
  }

  lemma TwoBytes(a: byte, b: byte)
    ensures Le([a, b]) == a + 256 * b
  {
    assert [a, b][1..] == [b] && [b][1..] == [] && Le([b]) == b;
  }

  lemma HighHalf(low: u16, high: u16)
    ensures Le(LeBytes(low, 2) + LeBytes(high, 2)) / 0x1000_0000 == high / 0x1000
  {
    hide Le, LeBytes, Pow256;
    LeAfterTwo(LeBytes(low, 2), LeBytes(high, 2));
    Pow256Values();
    LeRoundTrip(low, 2);
    LeRoundTrip(high, 2);
  }

  /**
   A written central-directory record reads back: its findings come from its own name and attributes and
   the local header's name, its content from its own payload, and its sizes are the ones written.
   */
  lemma CentralRoundTrip(data: seq<byte>, at: nat, e: ZipEntry, path: MediaPath, policy: Policy, lib: Library)
    requires ValidEntry(e) && HoldsAt(data, at, MemberBytes(e.member)) && HoldsEntry(data, e)
    ensures at + 46 <= |data|
    ensures var m := e.member;
            CentralRecord(data, at, path, policy, lib)
            == Record(Some(lib.decode(m.name)), MemberFindings(e, path, policy, lib),
                      WrittenContent(lib.decode(m.name), m.how, e.payload, path, lib), |e.payload|, m.uncomp,
                      at + |MemberBytes(m)|)
  {
    hide HoldsAt, MemberBytes, LocalBytes, U16, U32, MethodCode, IsPathTraversalEntry, IsMacroName, ContentOf,
         WrittenContent;
    var m, l := e.member, e.local;
    MemberFields(data, at, m);
    MemberAttributes(data, at, m);
    HeldPart(data, m.offset, LocalBytes(l), e.payload);
    LocalFields(data, m.offset, l);
    ContentRoundTrip(data, m.offset + |LocalBytes(l)|, e.payload, m.how, lib.decode(m.name), path, lib);
  }

  /* Whole zip files */

  // The end-of-directory record closes the file; `counts` are the disk numbers and entry counts.
  datatype Zip = Zip(entries: seq<ZipEntry>, at: u32, counts: seq<byte>, comment: seq<byte>)

  predicate ValidEntries(es: seq<ZipEntry>) {
    forall k | 0 <= k < |es| :: ValidEntry(es[k])
  }

  function Directory(es: seq<ZipEntry>): seq<byte>
    requires ValidEntries(es)
  {
    if es == [] then [] else MemberBytes(es[0].member) + Directory(es[1..])
  }

  predicate ValidZip(z: Zip) {
    ValidEntries(z.entries) && |Directory(z.entries)| < U32_LIMIT && |z.counts| == 8 && |z.comment| < 0x1_0000
  }

  function EndBytes(z: Zip): (b: seq<byte>)
    requires ValidZip(z)
    ensures |b| == 22 + |z.comment|
  {
    [0x50, 0x4B, 0x05, 0x06] + z.counts + LeBytes(|Directory(z.entries)|, 4) + LeBytes(z.at, 4)
    + LeBytes(|z.comment|, 2) + z.comment
  }

  predicate HoldsEntries(data: seq<byte>, es: seq<ZipEntry>)
    requires ValidEntries(es)
  {
    forall k | 0 <= k < |es| :: HoldsEntry(data, es[k])
  }

  // The file holds the entries anywhere, their directory, and the end record last; nothing in the comment
  // looks like another one.
  predicate HoldsZip(data: seq<byte>, z: Zip) {
    && ValidZip(z) && HoldsEntries(data, z.entries)
    && |data| >= 22 + |z.comment|
    && var end := |data| - 22 - |z.comment|;
       && z.at <= end && HoldsAt(data, z.at, Directory(z.entries)) && HoldsAt(data, end, EndBytes(z))
       && forall j | end < j <= |data| - 22 :: !IsEocd(data, j)
  }

  // Reported for its ratio: more than the allowed multiple of the payload, and more than ten megabytes.
  function Expansion(payload: nat, size: nat, path: MediaPath, policy: Policy): seq<Finding> {
    if 0 < payload && size > payload * policy.maxExpansionRatio && size > 10_485_760
    then [Finding(path, ExpansionRatio, "")] else []
  }

  function ZipItem(e: ZipEntry, path: MediaPath, policy: Policy, lib: Library): Item {
    var name := lib.decode(e.member.name);
    Item(name, e.member.uncomp, MemberFindings(e, path, policy, lib),
         WrittenContent(name, e.member.how, e.payload, path, lib),
           Expansion(|e.payload|, e.member.uncomp, path, policy))
  }

  function ZipItems(es: seq<ZipEntry>, path: MediaPath, policy: Policy, lib: Library): seq<Item> {
    seq(|es|, k requires 0 <= k < |es| => ZipItem(es[k], path, policy, lib))
  }

  lemma EndFields(z: Zip)
    requires ValidZip(z)
    ensures var b := EndBytes(z);
            && b[0..4] == [0x50, 0x4B, 0x05, 0x06]
            && b[12..16] == LeBytes(|Directory(z.entries)|, 4) && b[16..20] == LeBytes(z.at, 4)
            && b[20..22] == LeBytes(|z.comment|, 2)
  {
    hide LeBytes, Directory, ValidEntries;
  }

  lemma EndFound(data: seq<byte>, z: Zip)
    requires HoldsZip(data, z)
    ensures var end := |data| - 22 - |z.comment|;
            && FindEocd(data) == Some(end) && U32(data, end + 16) == z.at
            && U32(data, end + 12) == |Directory(z.entries)|
  {
    hide LeBytes, Directory, U16, U32, ValidEntries, HoldsEntries, EndBytes;
    var end := |data| - 22 - |z.comment|;
    EndFields(z);
    HeldU32(data, end, EndBytes(z), 12, |Directory(z.entries)|);
    HeldU32(data, end, EndBytes(z), 16, z.at);
    HeldU16(data, end, EndBytes(z), 20, |z.comment|);
    HeldSlice(data, end, EndBytes(z), 0, 4);
    assert data[end..end + 4][0] == data[end] && data[end..end + 4][1] == data[end + 1];
    assert data[end..end + 4][2] == data[end + 2] && data[end..end + 4][3] == data[end + 3];
    assert IsEocd(data, end);
  }

  // The events of the entries, nested archives included.
  function WrittenEvents(es: seq<ZipEntry>, path: MediaPath, depth: nat, policy: Policy, lib: Library): seq<Event> {
    if es == [] then [] else
      var i := ZipItem(es[0], path, policy, lib);
      [Entry(path, i.name)]
      + ((if i.content.Nested? then Events(i.content.data, path + [i.name], depth + 1, policy, lib) else [])
         + [Declared(i.size)])
      + WrittenEvents(es[1..], path, depth, policy, lib)
  }

  lemma {:induction false} DirectoryEvents(data: seq<byte>, at: nat, es: seq<ZipEntry>, path: MediaPath, depth: nat,
                                           policy: Policy, lib: Library)
    requires ValidEntries(es) && HoldsEntries(data, es) && HoldsAt(data, at, Directory(es)) && depth <= policy.maxDepth
    ensures CentralEvents(data, at, at + |Directory(es)|, path, depth, policy, lib)
            == WrittenEvents(es, path, depth, policy, lib)
    decreases |es|
  {
    hide HoldsAt, HoldsEntry, MemberBytes, CentralRecord, Events, U32, MemberFindings, WrittenContent, ValidEntry;
    if es != [] {
      var e := es[0];
      EntryHeld(data, at, es, path, policy, lib);
      CentralRoundTrip(data, at, e, path, policy, lib);
      var next := at + |MemberBytes(e.member)|;
      DirectoryEvents(data, next, es[1..], path, depth, policy, lib);
      var r, i := CentralRecord(data, at, path, policy, lib), ZipItem(e, path, policy, lib);
      assert CentralEvents(data, at, at + |Directory(es)|, path, depth, policy, lib)
             == CentralEntryEvents(r, path, depth, policy, lib)
                + CentralEvents(data, next, next + |Directory(es[1..])|, path, depth, policy, lib);
      assert r.content == i.content && r.name == Some(i.name) && r.uncompSize == i.size;
    }
  }

  /** The events of a written zip file are those of its entries, read from their own names, sizes and payloads. */
  lemma ZipEventsRoundTrip(data: seq<byte>, z: Zip, path: MediaPath, depth: nat, policy: Policy, lib: Library)
    requires HoldsZip(data, z) && depth <= policy.maxDepth
    ensures Events(data, path, depth, policy, lib) == WrittenEvents(z.entries, path, depth, policy, lib)
  {
    hide HoldsAt, HoldsEntries, ValidEntries, Directory, CentralEvents, U32, EndBytes, FindEocd, WrittenEvents;
    EndFound(data, z);
    HeldFits(data, z.at, Directory(z.entries));
    DirectoryEvents(data, z.at, z.entries, path, depth, policy, lib);
  }

  lemma {:induction false} WrittenPlain(es: seq<ZipEntry>, path: MediaPath, depth: nat, policy: Policy, lib: Library)
    requires Plain(ZipItems(es, path, policy, lib))
    ensures WrittenEvents(es, path, depth, policy, lib) == PlainEvents(path, ZipItems(es, path, policy, lib))
    decreases |es|
  {
    hide ZipItem, Events;
    if es != [] {
      var items := ZipItems(es, path, policy, lib);
      assert items[1..] == ZipItems(es[1..], path, policy, lib);
      WrittenPlain(es[1..], path, depth, policy, lib);
      assert [Entry(path, items[0].name)] + ([] + [Declared(items[0].size)])
             == [Entry(path, items[0].name), Declared(items[0].size)];
    }
  }

  /**
   A written zip file without nested archives is reported for its size if and only if the uncompressed sizes
   written in its directory add up to more than the limit; otherwise that sum is the total.
   */
  lemma ZipTotal(data: seq<byte>, z: Zip, path: MediaPath, policy: Policy, lib: Library)
    requires HoldsZip(data, z) && Plain(ZipItems(z.entries, path, policy, lib))
    ensures var r := Inspect(data, path, 0, Tally([], 0), policy, lib);
            var sum := Min(TotalSize(ZipItems(z.entries, path, policy, lib)), U64_MAX);
            && (HasSizeFinding(r.findings) <==> sum > LimitBytes(policy))
            && (sum <= LimitBytes(policy) ==> r.total == sum)
  {
    hide HoldsZip, Inspect, Events, WrittenEvents, HasSizeFinding, Within, SumFrom, Limit, PlainEvents, Plain, ZipItems,
         TotalSize;
    ZipEventsRoundTrip(data, z, path, 0, policy, lib);
    WrittenPlain(z.entries, path, 0, policy, lib);
    PlainTotals(path, ZipItems(z.entries, path, policy, lib), 0, Limit(policy));
    SizeFindingIff(data, path, policy, lib);
    LimitIs(policy);
  }

  lemma ExpansionIs(payload: nat, size: u32, path: MediaPath, policy: Policy)
    ensures RatioFindings(payload, size, path, policy) == Expansion(payload, size, path, policy)
  {
  }

  // One record of a plain archive, counted within the limit.
  lemma PlainTurn(data: seq<byte>, at: nat, e: ZipEntry, path: MediaPath, depth: nat, t: Tally, policy: Policy,
                  lib: Library)
    requires ValidEntry(e) && HoldsAt(data, at, MemberBytes(e.member)) && HoldsEntry(data, e)
             && depth <= policy.maxDepth
    requires var i := ZipItem(e, path, policy, lib);
             !i.content.Nested? && t.total + i.size <= Limit(policy)
    ensures at + 46 <= |data|
    ensures var i := ZipItem(e, path, policy, lib);
            CentralTurn(CentralRecord(data, at, path, policy, lib), path, depth, t, policy, lib)
            == Turn(Tally(t.findings + Reported(i), t.total + i.size), false)
  {
    hide HoldsAt, HoldsEntry, MemberBytes, CentralRecord, MemberFindings, WrittenContent, RatioFindings, Expansion,
         Limit, CountEntry, ValidMember, ValidLocal;
    CentralRoundTrip(data, at, e, path, policy, lib);
    ExpansionIs(|e.payload|, e.member.uncomp, path, policy);
    var i := ZipItem(e, path, policy, lib);
    PlainInside(i, path, depth, t, policy, lib);
    CountedWithin(Tally(t.findings + Reported(i), t.total), i.size, path, policy);
  }

  lemma PlainInside(i: Item, path: MediaPath, depth: nat, t: Tally, policy: Policy, lib: Library)
    requires !i.content.Nested? && depth <= policy.maxDepth
    ensures Report(InspectContent(i.content, i.name, path, depth, Report(t, i.findings), policy, lib), i.after)
            == Tally(t.findings + Reported(i), t.total)
  {
    var more := if i.content.Relations? then i.content.findings else [];
    assert t.findings + i.findings + more + i.after == t.findings + (i.findings + more + i.after);
    assert t.findings + i.findings + [] == t.findings + i.findings;
  }

  // One turn of the walk over the directory.
  lemma CentralStep(data: seq<byte>, at: nat, end: nat, path: MediaPath, depth: nat, t: Tally, policy: Policy,
                    lib: Library, next: nat, t': Tally)
    requires at + 46 <= Min(end, |data|) && U32(data, at) == 0x02014B50 && depth <= policy.maxDepth
    requires var r := CentralRecord(data, at, path, policy, lib);
             r.next == next && CentralTurn(r, path, depth, t, policy, lib) == Turn(t', false)
    ensures CentralFrom(data, at, end, path, depth, t, policy, lib)
            == CentralFrom(data, next, end, path, depth, t', policy, lib)
  {
    hide CentralRecord, CentralTurn;
  }

  lemma {:induction false} DirectoryTally(data: seq<byte>, at: nat, es: seq<ZipEntry>, path: MediaPath, depth: nat,
                                          t: Tally, policy: Policy, lib: Library)
    requires ValidEntries(es) && HoldsEntries(data, es) && HoldsAt(data, at, Directory(es)) && depth <= policy.maxDepth
    requires var items := ZipItems(es, path, policy, lib);
             Plain(items) && t.total + TotalSize(items) <= Limit(policy)
    ensures var items := ZipItems(es, path, policy, lib);
            CentralFrom(data, at, at + |Directory(es)|, path, depth, t, policy, lib)
            == Tally(t.findings + AllFindings(items), t.total + TotalSize(items))
    decreases |es|
  {
    hide HoldsAt, HoldsEntry, MemberBytes, CentralRecord, CentralTurn, U32, ZipItem, ValidEntry, Limit, Reported,
         CentralFrom;
    if es == [] {
      DirectoryEnds(data, at, path, depth, t, policy, lib);
      assert t.findings + [] == t.findings;
    } else {
      var e, items := es[0], ZipItems(es, path, policy, lib);
      assert items[1..] == ZipItems(es[1..], path, policy, lib) && items[0] == ZipItem(e, path, policy, lib);
      EntryHeld(data, at, es, path, policy, lib);
      PlainTurn(data, at, e, path, depth, t, policy, lib);
      var next, t' := at + |MemberBytes(e.member)|, Tally(t.findings + Reported(items[0]), t.total + items[0].size);
      CentralStep(data, at, at + |Directory(es)|, path, depth, t, policy, lib, next, t');
      DirectoryTally(data, next, es[1..], path, depth, t', policy, lib);
      ConcatAssociative(t.findings, Reported(items[0]), AllFindings(items[1..]));
    }
  }

  lemma DirectoryEnds(data: seq<byte>, at: nat, path: MediaPath, depth: nat, t: Tally, policy: Policy, lib: Library)
    requires depth <= policy.maxDepth
    ensures CentralFrom(data, at, at, path, depth, t, policy, lib) == t
  {
  }

  // The first entry of a directory: its record, its content, and the rest of the directory behind it.
  lemma EntryHeld(data: seq<byte>, at: nat, es: seq<ZipEntry>, path: MediaPath, policy: Policy, lib: Library)
    requires es != [] && ValidEntries(es) && HoldsEntries(data, es) && HoldsAt(data, at, Directory(es))
    ensures ValidEntry(es[0]) && ValidMember(es[0].member)
    ensures HoldsAt(data, at, MemberBytes(es[0].member)) && HoldsEntry(data, es[0])
    ensures var size := |MemberBytes(es[0].member)|;
            && HoldsAt(data, at + size, Directory(es[1..])) && |Directory(es)| == size + |Directory(es[1..])|
            && 46 <= size && at + 46 <= |data| && U32(data, at) == 0x02014B50
            && CentralRecord(data, at, path, policy, lib).next == at + size
  {
    hide HoldsAt, HoldsEntry, CentralRecord, U32, ValidMember, ValidLocal, Directory, MemberBytes;
    FirstEntry(data, at, es);
    RecordPlace(data, at, es[0], path, policy, lib);
  }

  lemma FirstEntry(data: seq<byte>, at: nat, es: seq<ZipEntry>)
    requires es != [] && ValidEntries(es) && HoldsEntries(data, es) && HoldsAt(data, at, Directory(es))
    ensures ValidEntry(es[0]) && HoldsEntry(data, es[0])
    ensures var b := MemberBytes(es[0].member);
            && HoldsAt(data, at, b) && HoldsAt(data, at + |b|, Directory(es[1..]))
            && |Directory(es)| == |b| + |Directory(es[1..])|
  {
    hide HoldsAt, HoldsEntry, MemberBytes, ValidMember, ValidLocal;
    assert ValidEntry(es[0]);
    HeldPart(data, at, MemberBytes(es[0].member), Directory(es[1..]));
  }

  lemma RecordPlace(data: seq<byte>, at: nat, e: ZipEntry, path: MediaPath, policy: Policy, lib: Library)
    requires ValidEntry(e) && HoldsAt(data, at, MemberBytes(e.member)) && HoldsEntry(data, e)
    ensures at + 46 <= |data| && U32(data, at) == 0x02014B50
    ensures CentralRecord(data, at, path, policy, lib).next == at + |MemberBytes(e.member)|
  {
    hide HoldsAt, HoldsEntry, CentralRecord, U32, U16, ValidMember, ValidLocal, MemberFindings, WrittenContent,
         MethodCode, MemberBytes;
    MemberFields(data, at, e.member);
    CentralRoundTrip(data, at, e, path, policy, lib);
  }

  /** Within the limit, its findings are exactly those of its entries, in the order of the directory. */
  lemma ZipFindings(data: seq<byte>, z: Zip, path: MediaPath, depth: nat, t: Tally, policy: Policy, lib: Library)
    requires HoldsZip(data, z) && depth <= policy.maxDepth
    requires var items := ZipItems(z.entries, path, policy, lib);
             Plain(items) && t.total + TotalSize(items) <= Limit(policy)
    ensures var items := ZipItems(z.entries, path, policy, lib);
            Inspect(data, path, depth, t, policy, lib)
            == Tally(t.findings + AllFindings(items), t.total + TotalSize(items))
  {
    hide HoldsAt, HoldsEntries, ValidEntries, Directory, CentralFrom, U32, EndBytes, FindEocd, ZipItems, Plain,
         TotalSize, AllFindings, Limit;
    EndFound(data, z);
    HeldFits(data, z.at, Directory(z.entries));
    DirectoryTally(data, z.at, z.entries, path, depth, t, policy, lib);
  }

  /* Where the limit is passed */

  // The record at which the sizes pass the limit: it is reported and looked into, and then the walk stops.
  lemma StoppingTurn(data: seq<byte>, at: nat, e: ZipEntry, path: MediaPath, depth: nat, t: Tally, policy: Policy,
                     lib: Library)
    requires ValidEntry(e) && HoldsAt(data, at, MemberBytes(e.member)) && HoldsEntry(data, e)
             && depth <= policy.maxDepth
    requires var i := ZipItem(e, path, policy, lib);
             !i.content.Nested? && Min(t.total + i.size, U64_MAX) > Limit(policy)
    ensures at + 46 <= |data|
    ensures var i := ZipItem(e, path, policy, lib);
            CentralTurn(CentralRecord(data, at, path, policy, lib), path, depth, t, policy, lib)
            == Turn(Tally(t.findings + Reported(i) + [Finding(path, SizeExceeded, "")],
                          Min(t.total + i.size, U64_MAX)), true)
  {
    hide HoldsAt, HoldsEntry, MemberBytes, CentralRecord, MemberFindings, WrittenContent, RatioFindings, Expansion,
         Limit, CountEntry, ValidMember, ValidLocal;
    CentralRoundTrip(data, at, e, path, policy, lib);
    ExpansionIs(|e.payload|, e.member.uncomp, path, policy);
    var i := ZipItem(e, path, policy, lib);
    PlainInside(i, path, depth, t, policy, lib);
    CountedOver(Tally(t.findings + Reported(i), t.total), i.size, path, policy);
  }

  lemma CentralStop(data: seq<byte>, at: nat, end: nat, path: MediaPath, depth: nat, t: Tally, policy: Policy,
                    lib: Library, t': Tally)
    requires at + 46 <= Min(end, |data|) && U32(data, at) == 0x02014B50 && depth <= policy.maxDepth
    requires CentralTurn(CentralRecord(data, at, path, policy, lib), path, depth, t, policy, lib) == Turn(t', true)
    ensures CentralFrom(data, at, end, path, depth, t, policy, lib) == t'
  {
    hide CentralRecord, CentralTurn;
  }

  lemma {:induction false} DirectoryStops(data: seq<byte>, at: nat, es: seq<ZipEntry>, path: MediaPath, depth: nat,
                                          t: Tally, policy: Policy, lib: Library, k: nat)
    requires ValidEntries(es) && HoldsEntries(data, es) && HoldsAt(data, at, Directory(es)) && depth <= policy.maxDepth
    requires PassesAt(t.total, ZipItems(es, path, policy, lib), k, policy)
    ensures var items := ZipItems(es, path, policy, lib);
            CentralFrom(data, at, at + |Directory(es)|, path, depth, t, policy, lib)
            == StoppedAt(t, items, k, Reported(items[k]), path)
    decreases k
  {
    hide HoldsAt, HoldsEntry, MemberBytes, CentralRecord, CentralTurn, U32, ZipItem, ValidEntry, Limit, LimitBytes,
         Reported, CentralFrom, StoppedAt;
    var e, items := es[0], ZipItems(es, path, policy, lib);
    assert items[1..] == ZipItems(es[1..], path, policy, lib) && items[0] == ZipItem(e, path, policy, lib);
    EntryHeld(data, at, es, path, policy, lib);
    LimitIs(policy);
    var next := at + |MemberBytes(e.member)|;
    if k == 0 {
      StoppedFirst(t, items, path, policy);
      StoppingTurn(data, at, e, path, depth, t, policy, lib);
      CentralStop(data, at, at + |Directory(es)|, path, depth, t, policy, lib,
                  StoppedAt(t, items, 0, Reported(items[0]), path));
    } else {
      StoppedLater(t, items, k, Reported(items[k]), path, policy);
      PlainTurn(data, at, e, path, depth, t, policy, lib);
      var t' := Tally(t.findings + Reported(items[0]), t.total + items[0].size);
      CentralStep(data, at, at + |Directory(es)|, path, depth, t, policy, lib, next, t');
      DirectoryStops(data, next, es[1..], path, depth, t', policy, lib, k - 1);
    }
  }

  /**
   When the sizes pass the limit at an entry, that entry is still reported and looked into; then comes the
   size finding, and nothing behind it is looked at.
   */
  lemma ZipStops(data: seq<byte>, z: Zip, path: MediaPath, depth: nat, t: Tally, policy: Policy, lib: Library, k: nat)
    requires HoldsZip(data, z) && depth <= policy.maxDepth
    requires PassesAt(t.total, ZipItems(z.entries, path, policy, lib), k, policy)
    ensures var items := ZipItems(z.entries, path, policy, lib);
            Inspect(data, path, depth, t, policy, lib) == StoppedAt(t, items, k, Reported(items[k]), path)
  {
    hide HoldsAt, HoldsEntries, ValidEntries, Directory, CentralFrom, U32, EndBytes, FindEocd, ZipItems, PassesAt,
         StoppedAt, Reported;
    EndFound(data, z);
    HeldFits(data, z.at, Directory(z.entries));
    DirectoryStops(data, z.at, z.entries, path, depth, t, policy, lib, k);
  }

  /* Zip files without a directory: local headers and payloads in a row */

  datatype LocalEntry = LocalEntry(local: Local, payload: seq<byte>)

  predicate ValidLocalEntry(e: LocalEntry) {
    ValidLocal(e.local) && e.local.comp == |e.payload|
  }

  predicate ValidLocals(es: seq<LocalEntry>) {
    forall k | 0 <= k < |es| :: ValidLocalEntry(es[k])
  }

  function LocalsBytes(es: seq<LocalEntry>): seq<byte>
    requires ValidLocals(es)
  {
    if es == [] then [] else LocalBytes(es[0].local) + (es[0].payload + LocalsBytes(es[1..]))
  }

  function LocalItem(e: LocalEntry, path: MediaPath, policy: Policy, lib: Library): Item {
    var name := lib.decode(e.local.name);
    Item(name, e.local.uncomp,
         ReportIf(IsPathTraversalEntry(name), Finding(path, Traversal, name))
         + ReportIf(!policy.allowMacros && IsMacroName(name, lib), Finding(path, Macros, name))
         + Expansion(|e.payload|, e.local.uncomp, path, policy),
         WrittenContent(name, e.local.how, e.payload, path, lib), [])
  }

  function LocalItems(es: seq<LocalEntry>, path: MediaPath, policy: Policy, lib: Library): seq<Item> {
    seq(|es|, k requires 0 <= k < |es| => LocalItem(es[k], path, policy, lib))
  }

  lemma LocalStart(data: seq<byte>, at: nat)
    requires at + 4 <= |data| && data[at..at + 4] == [0x50, 0x4B, 0x03, 0x04]
    ensures IsLocalMagic(data, at)
  {
    var b := data[at..at + 4];
    assert b[0] == data[at] && b[1] == data[at + 1] && b[2] == data[at + 2] && b[3] == data[at + 3];
  }

  lemma LocalRoundTrip(data: seq<byte>, at: nat, e: LocalEntry, path: MediaPath, policy: Policy, lib: Library)
    requires ValidLocalEntry(e) && HoldsAt(data, at, LocalBytes(e.local) + e.payload)
    ensures at + 30 <= |data| && IsLocalMagic(data, at)
    ensures var i := LocalItem(e, path, policy, lib);
            LocalRecord(data, at, path, policy, lib)
            == Record(Some(i.name), i.findings, i.content, |e.payload|, i.size,
                      at + |LocalBytes(e.local)| + |e.payload|)
  {
    hide HoldsAt, LocalBytes, U16, U32, MethodCode, IsPathTraversalEntry, IsMacroName, ContentOf, WrittenContent,
         RatioFindings, Expansion, IsLocalMagic, ReportIf, ValidMethod;
    var l := e.local;
    HeldPart(data, at, LocalBytes(l), e.payload);
    LocalFields(data, at, l);
    LocalStart(data, at);
    ContentRoundTrip(data, at + |LocalBytes(l)|, e.payload, l.how, lib.decode(l.name), path, lib);
    ExpansionIs(|e.payload|, l.uncomp, path, policy);
  }

  // One turn of the fallback walk.
  lemma LocalEventsStep(data: seq<byte>, at: nat, e: LocalEntry, path: MediaPath, depth: nat, policy: Policy,
                        lib: Library)
    requires ValidLocalEntry(e) && HoldsAt(data, at, LocalBytes(e.local) + e.payload) && depth <= policy.maxDepth
    ensures var i := LocalItem(e, path, policy, lib);
            LocalEvents(data, at, path, depth, policy, lib)
            == ([Entry(path, i.name)] + [Declared(i.size)])
               + (if i.content.Nested? then Events(i.content.data, path + [i.name], depth + 1, policy, lib) else [])
               + LocalEvents(data, at + |LocalBytes(e.local)| + |e.payload|, path, depth, policy, lib)
  {
    hide HoldsAt, LocalBytes, LocalRecord, IsLocalMagic, Events, LocalItem;
    LocalRoundTrip(data, at, e, path, policy, lib);
    var r, i := LocalRecord(data, at, path, policy, lib), LocalItem(e, path, policy, lib);
    assert LocalEntryEvents(r, path, depth, policy, lib)
           == EntryEvents(i.name, i.size, i.content, path, depth, policy, lib);
    assert EntryEvents(i.name, i.size, i.content, path, depth, policy, lib)
           == ([Entry(path, i.name)] + [Declared(i.size)]) + ContentEvents(i.content, i.name, path, depth, policy, lib);
  }

  lemma {:induction false} LocalsEvents(data: seq<byte>, at: nat, es: seq<LocalEntry>, path: MediaPath, depth: nat,
                                        policy: Policy, lib: Library)
    requires ValidLocals(es) && HoldsAt(data, at, LocalsBytes(es)) && at + |LocalsBytes(es)| == |data|
    requires depth <= policy.maxDepth
    ensures LocalEvents(data, at, path, depth, policy, lib)
            == ItemEvents(LocalItems(es, path, policy, lib), path, depth, policy, lib)
    decreases |es|
  {
    hide HoldsAt, LocalBytes, LocalEvents, Events, LocalItem, ValidLocal;
    if es == [] {
      LocalsEnd(data, at, path, depth, policy, lib);
    } else {
      var e, items := es[0], LocalItems(es, path, policy, lib);
      assert items[1..] == LocalItems(es[1..], path, policy, lib) && items[0] == LocalItem(e, path, policy, lib);
      FirstLocal(data, at, es);
      LocalEventsStep(data, at, e, path, depth, policy, lib);
      LocalsEvents(data, at + |LocalBytes(e.local)| + |e.payload|, es[1..], path, depth, policy, lib);
      assert [Entry(path, items[0].name)] + [Declared(items[0].size)]
             == [Entry(path, items[0].name), Declared(items[0].size)];
    }
  }

  lemma LocalsEnd(data: seq<byte>, at: nat, path: MediaPath, depth: nat, policy: Policy, lib: Library)
    requires at == |data| && depth <= policy.maxDepth
    ensures LocalEvents(data, at, path, depth, policy, lib) == []
  {
  }

  lemma FirstLocal(data: seq<byte>, at: nat, es: seq<LocalEntry>)
    requires es != [] && ValidLocals(es) && HoldsAt(data, at, LocalsBytes(es))
    ensures ValidLocalEntry(es[0]) && ValidLocal(es[0].local)
    ensures var b := LocalBytes(es[0].local) + es[0].payload;
            && HoldsAt(data, at, b) && HoldsAt(data, at + |b|, LocalsBytes(es[1..]))
            && |LocalsBytes(es)| == |b| + |LocalsBytes(es[1..])|
  {
    hide HoldsAt, LocalBytes, ValidLocal;
    assert ValidLocalEntry(es[0]);
    var a, p, rest := LocalBytes(es[0].local), es[0].payload, LocalsBytes(es[1..]);
    ConcatAssociative(a, p, rest);
    HeldPart(data, at, a + p, rest);
  }

  /** A file of local entries in a row, with no end record, reads back as those entries. */
  lemma LocalsRoundTrip(es: seq<LocalEntry>, path: MediaPath, depth: nat, policy: Policy, lib: Library)
    requires es != [] && ValidLocals(es) && FindEocd(LocalsBytes(es)).None? && depth <= policy.maxDepth
    ensures Events(LocalsBytes(es), path, depth, policy, lib)
            == ItemEvents(LocalItems(es, path, policy, lib), path, depth, policy, lib)
  {
    hide LocalBytes, LocalEvents, LocalItem, ValidLocal, FindEocd, LocalsBytes, ItemEvents;
    var data := LocalsBytes(es);
    assert HoldsAt(data, 0, data);
    FirstLocal(data, 0, es);
    HeldPart(data, 0, LocalBytes(es[0].local), es[0].payload);
    LocalFields(data, 0, es[0].local);
    LocalsEvents(data, 0, es, path, depth, policy, lib);
  }

  /**
   Without nested archives it is reported for its size if and only if the sizes written add up to more than the limit.
   */
  lemma LocalsTotal(es: seq<LocalEntry>, path: MediaPath, policy: Policy, lib: Library)
    requires es != [] && ValidLocals(es) && FindEocd(LocalsBytes(es)).None? && Plain(LocalItems(es, path, policy, lib))
    ensures var r := Inspect(LocalsBytes(es), path, 0, Tally([], 0), policy, lib);
            var sum := Min(TotalSize(LocalItems(es, path, policy, lib)), U64_MAX);
            && (HasSizeFinding(r.findings) <==> sum > LimitBytes(policy))
            && (sum <= LimitBytes(policy) ==> r.total == sum)
  {
    hide LocalsBytes, Inspect, Events, ItemEvents, HasSizeFinding, Within, SumFrom, Limit, PlainEvents, Plain,
         LocalItems, TotalSize, FindEocd, ValidLocals;
    LocalsRoundTrip(es, path, 0, policy, lib);
    PlainItemEvents(LocalItems(es, path, policy, lib), path, 0, policy, lib);
    PlainTotals(path, LocalItems(es, path, policy, lib), 0, Limit(policy));
    SizeFindingIff(LocalsBytes(es), path, policy, lib);
    LimitIs(policy);
  }

  lemma LocalTallyStep(data: seq<byte>, at: nat, e: LocalEntry, path: MediaPath, depth: nat, t: Tally, policy: Policy,
                       lib: Library)
    requires ValidLocalEntry(e) && HoldsAt(data, at, LocalBytes(e.local) + e.payload) && depth <= policy.maxDepth
    requires var i := LocalItem(e, path, policy, lib);
             !i.content.Nested? && t.total + i.size <= Limit(policy)
    ensures var i := LocalItem(e, path, policy, lib);
            LocalFrom(data, at, path, depth, t, policy, lib)
            == LocalFrom(data, at + |LocalBytes(e.local)| + |e.payload|, path, depth,
                         Tally(t.findings + Reported(i), t.total + i.size), policy, lib)
  {
    hide HoldsAt, LocalBytes, LocalRecord, IsLocalMagic, Reported, Limit, CountEntry, InspectContent, Report,
         ValidLocal, IsPathTraversalEntry, IsMacroName, WrittenContent, Expansion, ReportIf;
    LocalRoundTrip(data, at, e, path, policy, lib);
    var r, i := LocalRecord(data, at, path, policy, lib), LocalItem(e, path, policy, lib);
    PlainCounted(i, path, depth, t, policy, lib);
    assert LocalTurn(r, path, depth, t, policy, lib) == Turn(Tally(t.findings + Reported(i), t.total + i.size), false);
    hide LocalItem;
  }

  lemma {:induction false} LocalsTally(data: seq<byte>, at: nat, es: seq<LocalEntry>, path: MediaPath, depth: nat,
                                       t: Tally, policy: Policy, lib: Library)
    requires ValidLocals(es) && HoldsAt(data, at, LocalsBytes(es)) && at + |LocalsBytes(es)| == |data|
    requires depth <= policy.maxDepth
    requires var items := LocalItems(es, path, policy, lib);
             Plain(items) && t.total + TotalSize(items) <= Limit(policy)
    ensures var items := LocalItems(es, path, policy, lib);
            LocalFrom(data, at, path, depth, t, policy, lib)
            == Tally(t.findings + AllFindings(items), t.total + TotalSize(items))
    decreases |es|
  {
    hide HoldsAt, LocalBytes, LocalFrom, LocalItem, ValidLocal, Limit, Reported;
    if es == [] {
      LocalsDone(data, at, path, depth, t, policy, lib);
      assert t.findings + [] == t.findings;
    } else {
      var e, items := es[0], LocalItems(es, path, policy, lib);
      assert items[1..] == LocalItems(es[1..], path, policy, lib) && items[0] == LocalItem(e, path, policy, lib);
      FirstLocal(data, at, es);
      LocalTallyStep(data, at, e, path, depth, t, policy, lib);
      var t' := Tally(t.findings + Reported(items[0]), t.total + items[0].size);
      LocalsTally(data, at + |LocalBytes(e.local)| + |e.payload|, es[1..], path, depth, t', policy, lib);
      ConcatAssociative(t.findings, Reported(items[0]), AllFindings(items[1..]));
    }
  }

  lemma LocalsDone(data: seq<byte>, at: nat, path: MediaPath, depth: nat, t: Tally, policy: Policy, lib: Library)
    requires at == |data| && depth <= policy.maxDepth
    ensures LocalFrom(data, at, path, depth, t, policy, lib) == t
  {
  }

  /** Within the limit, the findings are exactly those of its entries, in order. */
  lemma LocalsFindings(es: seq<LocalEntry>, path: MediaPath, depth: nat, t: Tally, policy: Policy, lib: Library)
    requires es != [] && ValidLocals(es) && FindEocd(LocalsBytes(es)).None? && depth <= policy.maxDepth
    requires var items := LocalItems(es, path, policy, lib);
             Plain(items) && t.total + TotalSize(items) <= Limit(policy)
    ensures var items := LocalItems(es, path, policy, lib);
            Inspect(LocalsBytes(es), path, depth, t, policy, lib)
            == Tally(t.findings + AllFindings(items), t.total + TotalSize(items))
  {
    hide LocalBytes, LocalFrom, LocalItems, ValidLocal, FindEocd, LocalsBytes, Limit, Plain, TotalSize, AllFindings;
    var data := LocalsBytes(es);
    assert HoldsAt(data, 0, data);
    FirstLocal(data, 0, es);
    HeldPart(data, 0, LocalBytes(es[0].local), es[0].payload);
    LocalFields(data, 0, es[0].local);
    LocalsTally(data, 0, es, path, depth, t, policy, lib);
  }

  /** Here the size is counted first: the entry at which it passes the limit is reported, but not looked into. */
  lemma LocalsStop(es: seq<LocalEntry>, path: MediaPath, depth: nat, t: Tally, policy: Policy, lib: Library, k: nat)
    requires es != [] && ValidLocals(es) && FindEocd(LocalsBytes(es)).None? && depth <= policy.maxDepth
    requires PassesAt(t.total, LocalItems(es, path, policy, lib), k, policy)
    ensures var items := LocalItems(es, path, policy, lib);
            Inspect(LocalsBytes(es), path, depth, t, policy, lib) == StoppedAt(t, items, k, items[k].findings, path)
  {
    hide LocalBytes, LocalFrom, LocalItems, ValidLocal, FindEocd, LocalsBytes, PassesAt, StoppedAt;
    var data := LocalsBytes(es);
    assert HoldsAt(data, 0, data);
    FirstLocal(data, 0, es);
    HeldPart(data, 0, LocalBytes(es[0].local), es[0].payload);
    LocalFields(data, 0, es[0].local);
    LocalsStopAt(data, 0, es, path, depth, t, policy, lib, k);
  }

  lemma {:induction false} LocalsStopAt(data: seq<byte>, at: nat, es: seq<LocalEntry>, path: MediaPath, depth: nat,
                                        t: Tally, policy: Policy, lib: Library, k: nat)
    requires ValidLocals(es) && HoldsAt(data, at, LocalsBytes(es)) && depth <= policy.maxDepth
    requires PassesAt(t.total, LocalItems(es, path, policy, lib), k, policy)
    ensures var items := LocalItems(es, path, policy, lib);
            LocalFrom(data, at, path, depth, t, policy, lib) == StoppedAt(t, items, k, items[k].findings, path)
    decreases k
  {
    hide HoldsAt, LocalBytes, LocalFrom, LocalItem, ValidLocal, Limit, LimitBytes, Reported, StoppedAt;
    var e, items := es[0], LocalItems(es, path, policy, lib);
    assert items[1..] == LocalItems(es[1..], path, policy, lib) && items[0] == LocalItem(e, path, policy, lib);
    FirstLocal(data, at, es);
    LimitIs(policy);
    if k == 0 {
      StoppedFirst(t, items, path, policy);
      LocalStop(data, at, e, path, depth, t, policy, lib);
    } else {
      StoppedLater(t, items, k, items[k].findings, path, policy);
      LocalTallyStep(data, at, e, path, depth, t, policy, lib);
      var t' := Tally(t.findings + Reported(items[0]), t.total + items[0].size);
      LocalsStopAt(data, at + |LocalBytes(e.local)| + |e.payload|, es[1..], path, depth, t', policy, lib, k - 1);
    }
  }

  lemma LocalStop(data: seq<byte>, at: nat, e: LocalEntry, path: MediaPath, depth: nat, t: Tally, policy: Policy,
                  lib: Library)
    requires ValidLocalEntry(e) && HoldsAt(data, at, LocalBytes(e.local) + e.payload) && depth <= policy.maxDepth
    requires Min(t.total + LocalItem(e, path, policy, lib).size, U64_MAX) > Limit(policy)
    ensures var i := LocalItem(e, path, policy, lib);
            LocalFrom(data, at, path, depth, t, policy, lib)
            == Tally(t.findings + i.findings + [Finding(path, SizeExceeded, "")], Min(t.total + i.size, U64_MAX))
  {
    hide HoldsAt, LocalBytes, LocalRecord, IsLocalMagic, LocalItem, Limit, CountEntry, InspectContent;
    LocalRoundTrip(data, at, e, path, policy, lib);
    var r, i := LocalRecord(data, at, path, policy, lib), LocalItem(e, path, policy, lib);
    CountedOver(Report(t, i.findings), i.size, path, policy);
    assert LocalTurn(r, path, depth, t, policy, lib).stop;
  }
}
