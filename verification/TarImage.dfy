/** Tar files laid out as the POSIX ustar format says, and what inspection makes of them. */
module TarImage {
  import opened Bytes
  import opened Archives
  import opened ArchiveItems

  // One header block and its payload; `mode`, `sums` and `rest` are free, `octal` is the size field as written.
  datatype TarEntry = TarEntry(
    name: seq<byte>, mode: seq<byte>, octal: seq<byte>, sums: seq<byte>, flag: byte, link: seq<byte>, rest: seq<byte>,
    payload: seq<byte>, padding: seq<byte>)

  // A text field of 100 bytes, filled up with zeros.
  function TextField(text: seq<byte>): (b: seq<byte>)
    requires |text| <= 100
    ensures |b| == 100
  {
    text + seq(100 - |text|, _ => 0)
  }

  // The size field reads as the payload's size, and the padding fills its last block.
  predicate ValidTarEntry(e: TarEntry, lib: Library) {
    && NoNul(e.name) && |e.name| <= 100 && NoNul(e.link) && |e.link| <= 100
    && |e.mode| == 24 && |e.octal| == 12 && |e.sums| == 20 && |e.rest| == 250
    && lib.octal(e.octal) == |e.payload| && |e.payload| + 511 <= U64_MAX
    && |e.padding| < 512 && (|e.payload| + |e.padding|) % 512 == 0
  }

  predicate ValidTar(es: seq<TarEntry>, lib: Library) {
    forall k | 0 <= k < |es| :: ValidTarEntry(es[k], lib)
  }

  function TarBlock(e: TarEntry): (b: seq<byte>)
    requires |e.name| <= 100 && |e.link| <= 100
    requires |e.mode| == 24 && |e.octal| == 12 && |e.sums| == 20 && |e.rest| == 250
    ensures |b| == 512
  {
    TextField(e.name) + e.mode + e.octal + e.sums + [e.flag] + TextField(e.link) + [0x75, 0x73, 0x74, 0x61, 0x72]
      + e.rest
  }

  function TarEntryBytes(e: TarEntry, lib: Library): (b: seq<byte>)
    requires ValidTarEntry(e, lib)
  {
    TarBlock(e) + (e.payload + e.padding)
  }

  function TarBytes(es: seq<TarEntry>, lib: Library): seq<byte>
    requires ValidTar(es, lib)
  {
    if es == [] then [] else TarEntryBytes(es[0], lib) + TarBytes(es[1..], lib)
  }

  // Symbolic links have the flag '2', hard links the flag '1'.
  function TarItem(e: TarEntry, path: MediaPath, policy: Policy, lib: Library): Item {
    var name, link := lib.decode(e.name), lib.decode(e.link);
    Item(name, |e.payload|,
         ReportIf(IsPathTraversalEntry(name), Finding(path, Traversal, name))
         + ReportIf(e.flag == 50 && !policy.allowSymlinks, Finding(path, SymbolicLink, name))
         + ReportIf(e.flag == 49 && IsPathTraversalEntry(link), Finding(path, HardLinkTraversal, name)),
         if IsNestedArchiveName(name, lib) then Nested(e.payload) else Nothing, [])
  }

  function TarItems(es: seq<TarEntry>, path: MediaPath, policy: Policy, lib: Library): seq<Item> {
    seq(|es|, k requires 0 <= k < |es| => TarItem(es[k], path, policy, lib))
  }

  lemma {:induction false} NulEnds(text: seq<byte>, n: nat)
    requires NoNul(text)
    ensures BytesToNul(text + seq(n, _ => 0)) == text
  {
    var b := text + seq(n, _ => 0);
    if text == [] {
      assert b == [] || b[0] == 0;
    } else {
      assert b[1..] == text[1..] + seq(n, _ => 0);
      assert NoNul(text[1..]);
      NulEnds(text[1..], n);
    }
  }

  lemma TarBlockFields(e: TarEntry)
    requires |e.name| <= 100 && |e.link| <= 100
    requires |e.mode| == 24 && |e.octal| == 12 && |e.sums| == 20 && |e.rest| == 250
    ensures var b := TarBlock(e);
            && b[0..100] == TextField(e.name) && b[124..136] == e.octal && b[156] == e.flag
            && b[157..257] == TextField(e.link) && b[257..262] == [0x75, 0x73, 0x74, 0x61, 0x72]
  {
    hide TextField;
  }

  // A written header block reads back.
  lemma TarRoundTrip(e: TarEntry, path: MediaPath, policy: Policy, lib: Library)
    requires ValidTarEntry(e, lib)
    ensures var i := TarItem(e, path, policy, lib);
            TarRecord(TarBlock(e), path, policy, lib) == TarHeader(i.name, i.findings, i.size)
    ensures !AllZero(TarBlock(e))
  {
    hide TarBlock, IsPathTraversalEntry, BytesToNul;
    TarBlockFields(e);
    NulEnds(e.name, 100 - |e.name|);
    NulEnds(e.link, 100 - |e.link|);
    assert TarBlock(e)[257..262][0] == TarBlock(e)[257] == 0x75;
  }

  // The entry at `at`: its header, its content, and where the next header stands.
  lemma TarEntryAt(data: seq<byte>, at: nat, e: TarEntry, path: MediaPath, policy: Policy, lib: Library)
    requires ValidTarEntry(e, lib) && HoldsAt(data, at, TarEntryBytes(e, lib))
    ensures !TarEnds(data, at)
    ensures var h, i := TarHeaderAt(data, at, path, policy, lib), TarItem(e, path, policy, lib);
            && h == TarHeader(i.name, i.findings, i.size)
            && TarContent(data, at + 512, h, lib) == i.content
            && TarNext(at, h) == at + |TarEntryBytes(e, lib)|
  {
    hide TarBlock, IsPathTraversalEntry, TarRecord, IsNestedArchiveName, AllZero;
    HeldPart(data, at, TarBlock(e), e.payload + e.padding);
    HeldPart(data, at + 512, e.payload, e.padding);
    TarRoundTrip(e, path, policy, lib);
    WholeBlocks(|e.payload|, |e.padding|);
  }

  lemma WholeBlocks(size: nat, padding: nat)
    requires padding < 512 && (size + padding) % 512 == 0 && size + 511 <= U64_MAX
    ensures SatAdd(size, 511) / 512 * 512 == size + padding
  {
  }

  lemma TarEventsStep(data: seq<byte>, at: nat, e: TarEntry, path: MediaPath, depth: nat, policy: Policy, lib: Library)
    requires ValidTarEntry(e, lib) && HoldsAt(data, at, TarEntryBytes(e, lib)) && depth <= policy.maxDepth
    ensures var i := TarItem(e, path, policy, lib);
            TarEvents(data, at, path, depth, policy, lib)
            == ([Entry(path, i.name)] + [Declared(i.size)])
               + (if i.content.Nested? then Events(i.content.data, path + [i.name], depth + 1, policy, lib) else [])
               + TarEvents(data, at + |TarEntryBytes(e, lib)|, path, depth, policy, lib)
  {
    hide HoldsAt, TarEntryBytes, TarEnds, TarHeaderAt, TarContent, TarNext, Events, TarItem, ValidTarEntry;
    TarEntryAt(data, at, e, path, policy, lib);
    var i := TarItem(e, path, policy, lib);
    assert EntryEvents(i.name, i.size, i.content, path, depth, policy, lib)
           == ([Entry(path, i.name)] + [Declared(i.size)]) + ContentEvents(i.content, i.name, path, depth, policy, lib);
  }

  lemma FirstTar(data: seq<byte>, at: nat, es: seq<TarEntry>, lib: Library)
    requires es != [] && ValidTar(es, lib) && HoldsAt(data, at, TarBytes(es, lib))
    ensures ValidTarEntry(es[0], lib)
    ensures var b := TarEntryBytes(es[0], lib);
            && HoldsAt(data, at, b) && HoldsAt(data, at + |b|, TarBytes(es[1..], lib))
            && |TarBytes(es, lib)| == |b| + |TarBytes(es[1..], lib)|
  {
    hide HoldsAt, TarEntryBytes, ValidTarEntry;
    assert ValidTarEntry(es[0], lib);
    HeldPart(data, at, TarEntryBytes(es[0], lib), TarBytes(es[1..], lib));
  }

  lemma {:induction false} TarsEvents(data: seq<byte>, at: nat, es: seq<TarEntry>, path: MediaPath, depth: nat,
                                      policy: Policy, lib: Library)
    requires ValidTar(es, lib) && HoldsAt(data, at, TarBytes(es, lib)) && TarEnds(data, at + |TarBytes(es, lib)|)
    requires depth <= policy.maxDepth
    ensures TarEvents(data, at, path, depth, policy, lib)
            == ItemEvents(TarItems(es, path, policy, lib), path, depth, policy, lib)
    decreases |es|
  {
    hide HoldsAt, TarEntryBytes, TarEvents, Events, TarItem, ValidTarEntry, TarEnds;
    if es == [] {
      TarDone(data, at, path, depth, Tally([], 0), policy, lib);
    } else {
      var e, items := es[0], TarItems(es, path, policy, lib);
      assert items[1..] == TarItems(es[1..], path, policy, lib) && items[0] == TarItem(e, path, policy, lib);
      FirstTar(data, at, es, lib);
      TarEventsStep(data, at, e, path, depth, policy, lib);
      TarsEvents(data, at + |TarEntryBytes(e, lib)|, es[1..], path, depth, policy, lib);
      assert [Entry(path, items[0].name)] + [Declared(items[0].size)]
             == [Entry(path, items[0].name), Declared(items[0].size)];
    }
  }

  lemma TarDone(data: seq<byte>, at: nat, path: MediaPath, depth: nat, t: Tally, policy: Policy, lib: Library)
    requires TarEnds(data, at) && depth <= policy.maxDepth
    ensures TarEvents(data, at, path, depth, policy, lib) == [] && TarFrom(data, at, path, depth, t, policy, lib) == t
  {
  }

  lemma TarTallyStep(data: seq<byte>, at: nat, e: TarEntry, path: MediaPath, depth: nat, t: Tally, policy: Policy,
                     lib: Library)
    requires ValidTarEntry(e, lib) && HoldsAt(data, at, TarEntryBytes(e, lib)) && depth <= policy.maxDepth
    requires var i := TarItem(e, path, policy, lib);
             !i.content.Nested? && t.total + i.size <= Limit(policy)
    ensures var i := TarItem(e, path, policy, lib);
            TarFrom(data, at, path, depth, t, policy, lib)
            == TarFrom(data, at + |TarEntryBytes(e, lib)|, path, depth,
                       Tally(t.findings + Reported(i), t.total + i.size), policy, lib)
  {
    hide HoldsAt, TarEntryBytes, TarEnds, TarHeaderAt, TarContent, TarNext, Limit, Reported, CountEntry, InspectContent,
         Report, ValidTarEntry, IsPathTraversalEntry, IsNestedArchiveName;
    TarEntryAt(data, at, e, path, policy, lib);
    var h, i := TarHeaderAt(data, at, path, policy, lib), TarItem(e, path, policy, lib);
    PlainCounted(i, path, depth, t, policy, lib);
    assert TarTurn(h, i.content, path, depth, t, policy, lib)
           == Turn(Tally(t.findings + Reported(i), t.total + i.size), false);
  }

  lemma {:induction false} TarsTally(data: seq<byte>, at: nat, es: seq<TarEntry>, path: MediaPath, depth: nat, t: Tally,
                                     policy: Policy, lib: Library)
    requires ValidTar(es, lib) && HoldsAt(data, at, TarBytes(es, lib)) && TarEnds(data, at + |TarBytes(es, lib)|)
    requires depth <= policy.maxDepth
    requires var items := TarItems(es, path, policy, lib);
             Plain(items) && t.total + TotalSize(items) <= Limit(policy)
    ensures var items := TarItems(es, path, policy, lib);
            TarFrom(data, at, path, depth, t, policy, lib)
            == Tally(t.findings + AllFindings(items), t.total + TotalSize(items))
    decreases |es|
  {
    hide HoldsAt, TarEntryBytes, TarFrom, TarItem, ValidTarEntry, TarEnds, Limit, Reported;
    if es == [] {
      TarDone(data, at, path, depth, t, policy, lib);
      assert t.findings + [] == t.findings;
    } else {
      var e, items := es[0], TarItems(es, path, policy, lib);
      assert items[1..] == TarItems(es[1..], path, policy, lib) && items[0] == TarItem(e, path, policy, lib);
      FirstTar(data, at, es, lib);
      TarTallyStep(data, at, e, path, depth, t, policy, lib);
      var t' := Tally(t.findings + Reported(items[0]), t.total + items[0].size);
      TarsTally(data, at + |TarEntryBytes(e, lib)|, es[1..], path, depth, t', policy, lib);
      ConcatAssociative(t.findings, Reported(items[0]), AllFindings(items[1..]));
    }
  }

  // A tar file: the entries, then a block of zeros or less than a block, and nothing that looks like a zip file.
  predicate HoldsTar(data: seq<byte>, es: seq<TarEntry>, lib: Library) {
    && es != [] && ValidTar(es, lib) && !IsZip(data) && HoldsAt(data, 0, TarBytes(es, lib))
    && var end := |TarBytes(es, lib)|;
       |data| < end + 512 || forall k | end <= k < end + 512 :: data[k] == 0
  }

  lemma TarKind(data: seq<byte>, es: seq<TarEntry>, lib: Library)
    requires HoldsTar(data, es, lib)
    ensures IsTar(data) && TarEnds(data, |TarBytes(es, lib)|)
  {
    hide TarEntryBytes, ValidTar, IsZip;
    var e := es[0];
    FirstTar(data, 0, es, lib);
    TarStart(data, e, lib);
  }

  lemma TarStart(data: seq<byte>, e: TarEntry, lib: Library)
    requires ValidTarEntry(e, lib) && HoldsAt(data, 0, TarEntryBytes(e, lib))
    ensures IsTar(data)
  {
    hide TarBlock;
    HeldPart(data, 0, TarBlock(e), e.payload + e.padding);
    TarBlockFields(e);
    HeldSlice(data, 0, TarBlock(e), 257, 262);
  }

  /** A written tar file reads back as its entries, and within the limit draws exactly their findings. */
  lemma TarFileRoundTrip(data: seq<byte>, es: seq<TarEntry>, path: MediaPath, depth: nat, t: Tally, policy: Policy,
                         lib: Library)
    requires HoldsTar(data, es, lib) && depth <= policy.maxDepth
    ensures var items := TarItems(es, path, policy, lib);
            && Events(data, path, depth, policy, lib) == ItemEvents(items, path, depth, policy, lib)
            && (Plain(items) && t.total + TotalSize(items) <= Limit(policy) ==>
                  Inspect(data, path, depth, t, policy, lib)
                  == Tally(t.findings + AllFindings(items), t.total + TotalSize(items)))
  {
    hide HoldsAt, TarBytes, TarFrom, TarEvents, TarItems, ValidTar, TarEnds, Limit, Plain, TotalSize, AllFindings,
         IsZip, IsTar, ItemEvents;
    TarKind(data, es, lib);
    TarsEvents(data, 0, es, path, depth, policy, lib);
    var items := TarItems(es, path, policy, lib);
    if Plain(items) && t.total + TotalSize(items) <= Limit(policy) {
      TarsTally(data, 0, es, path, depth, t, policy, lib);
    }
  }

  /** Without nested archives it is reported for its size if and only if the payloads add up to more than the limit. */
  lemma TarTotal(data: seq<byte>, es: seq<TarEntry>, path: MediaPath, policy: Policy, lib: Library)
    requires HoldsTar(data, es, lib) && Plain(TarItems(es, path, policy, lib))
    ensures var r := Inspect(data, path, 0, Tally([], 0), policy, lib);
            var sum := Min(TotalSize(TarItems(es, path, policy, lib)), U64_MAX);
            && (HasSizeFinding(r.findings) <==> sum > LimitBytes(policy))
            && (sum <= LimitBytes(policy) ==> r.total == sum)
  {
    hide HoldsTar, Inspect, Events, ItemEvents, HasSizeFinding, Within, SumFrom, Limit, PlainEvents, Plain, TarItems,
         TotalSize, AllFindings;
    TarFileRoundTrip(data, es, path, 0, Tally([], 0), policy, lib);
    PlainItemEvents(TarItems(es, path, policy, lib), path, 0, policy, lib);
    PlainTotals(path, TarItems(es, path, policy, lib), 0, Limit(policy));
    SizeFindingIff(data, path, policy, lib);
    LimitIs(policy);
  }

  lemma TarStop(data: seq<byte>, at: nat, e: TarEntry, path: MediaPath, depth: nat, t: Tally, policy: Policy,
                lib: Library)
    requires ValidTarEntry(e, lib) && HoldsAt(data, at, TarEntryBytes(e, lib)) && depth <= policy.maxDepth
    requires Min(t.total + TarItem(e, path, policy, lib).size, U64_MAX) > Limit(policy)
    ensures var i := TarItem(e, path, policy, lib);
            TarFrom(data, at, path, depth, t, policy, lib)
            == Tally(t.findings + i.findings + [Finding(path, SizeExceeded, "")], Min(t.total + i.size, U64_MAX))
  {
    hide HoldsAt, TarEntryBytes, TarEnds, TarHeaderAt, TarContent, TarNext, Limit, CountEntry, InspectContent,
         ValidTarEntry, TarItem;
    TarEntryAt(data, at, e, path, policy, lib);
    var h, i := TarHeaderAt(data, at, path, policy, lib), TarItem(e, path, policy, lib);
    CountedOver(Report(t, i.findings), i.size, path, policy);
    assert TarTurn(h, i.content, path, depth, t, policy, lib).stop;
  }

  lemma {:induction false} TarsStop(data: seq<byte>, at: nat, es: seq<TarEntry>, path: MediaPath, depth: nat, t: Tally,
                                    policy: Policy, lib: Library, k: nat)
    requires ValidTar(es, lib) && HoldsAt(data, at, TarBytes(es, lib)) && depth <= policy.maxDepth
    requires PassesAt(t.total, TarItems(es, path, policy, lib), k, policy)
    ensures var items := TarItems(es, path, policy, lib);
            TarFrom(data, at, path, depth, t, policy, lib) == StoppedAt(t, items, k, items[k].findings, path)
    decreases k
  {
    hide HoldsAt, TarEntryBytes, TarFrom, TarItem, ValidTarEntry, Limit, LimitBytes, Reported, StoppedAt;
    var e, items := es[0], TarItems(es, path, policy, lib);
    assert items[1..] == TarItems(es[1..], path, policy, lib) && items[0] == TarItem(e, path, policy, lib);
    FirstTar(data, at, es, lib);
    LimitIs(policy);
    if k == 0 {
      StoppedFirst(t, items, path, policy);
      TarStop(data, at, e, path, depth, t, policy, lib);
    } else {
      StoppedLater(t, items, k, items[k].findings, path, policy);
      TarTallyStep(data, at, e, path, depth, t, policy, lib);
      var t' := Tally(t.findings + Reported(items[0]), t.total + items[0].size);
      TarsStop(data, at + |TarEntryBytes(e, lib)|, es[1..], path, depth, t', policy, lib, k - 1);
    }
  }

  /** The entry at which the sizes pass the limit is reported but not looked into, and the walk stops there. */
  lemma TarStops(data: seq<byte>, es: seq<TarEntry>, path: MediaPath, depth: nat, t: Tally, policy: Policy,
                 lib: Library, k: nat)
    requires HoldsTar(data, es, lib) && depth <= policy.maxDepth
    requires PassesAt(t.total, TarItems(es, path, policy, lib), k, policy)
    ensures var items := TarItems(es, path, policy, lib);
            Inspect(data, path, depth, t, policy, lib) == StoppedAt(t, items, k, items[k].findings, path)
  {
    hide HoldsAt, TarBytes, TarFrom, TarItems, ValidTar, TarEnds, IsZip, IsTar, PassesAt, StoppedAt;
    TarKind(data, es, lib);
    TarsStop(data, 0, es, path, depth, t, policy, lib, k);
  }
}
