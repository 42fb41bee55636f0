/** What archives are written from, and what inspection makes of their entries: shared by ZipImage and TarImage. */
module ArchiveItems {
  import opened Bytes
  import opened Archives

  type u16 = x: int | 0 <= x < 0x1_0000

  // `b` stands at `at` in `data`.
  predicate HoldsAt(data: seq<byte>, at: nat, b: seq<byte>) {
    at + |b| <= |data| && data[at..at + |b|] == b
  }

  lemma HeldSlice(data: seq<byte>, at: nat, b: seq<byte>, i: nat, j: nat)
    requires HoldsAt(data, at, b) && i <= j <= |b|
    ensures data[at + i..at + j] == b[i..j]
  {
    var pre, post := data[..at], data[at + |b|..];
    assert data == pre + b + post;
    assert (pre + b + post)[at + i..at + j] == b[i..j];
  }

  lemma HeldPart(data: seq<byte>, at: nat, a: seq<byte>, b: seq<byte>)
    requires HoldsAt(data, at, a + b)
    ensures HoldsAt(data, at, a) && HoldsAt(data, at + |a|, b)
  {
    HeldSlice(data, at, a + b, 0, |a|);
    HeldSlice(data, at, a + b, |a|, |a + b|);
    assert (a + b)[0..|a|] == a && (a + b)[|a|..|a + b|] == b;
  }

  lemma HeldU16(data: seq<byte>, at: nat, b: seq<byte>, i: nat, v: u16)
    requires HoldsAt(data, at, b) && i + 2 <= |b| && b[i..i + 2] == LeBytes(v, 2)
    ensures U16(data, at + i) == v
  {
    hide Le, LeBytes, Pow256, HoldsAt;
    HeldSlice(data, at, b, i, i + 2);
    Pow256Values();
    LeRoundTrip(v, 2);
    HeldFits(data, at, b);
  }

  lemma HeldU32(data: seq<byte>, at: nat, b: seq<byte>, i: nat, v: u32)
    requires HoldsAt(data, at, b) && i + 4 <= |b| && b[i..i + 4] == LeBytes(v, 4)
    ensures U32(data, at + i) == v
  {
    hide Le, LeBytes, Pow256, HoldsAt;
    HeldSlice(data, at, b, i, i + 4);
    Pow256Values();
    LeRoundTrip(v, 4);
    HeldFits(data, at, b);
  }

  lemma HeldFits(data: seq<byte>, at: nat, b: seq<byte>)
    requires HoldsAt(data, at, b)
    ensures at + |b| <= |data|
  {
  }

  /* Entries */

  // What inspection is to make of an entry: its name, declared size and content, and its findings before and
  // after the content is looked at.
  datatype Item = Item(name: string, size: nat, findings: seq<Finding>, content: Content, after: seq<Finding>)

  predicate Plain(items: seq<Item>) {
    forall k | 0 <= k < |items| :: !items[k].content.Nested?
  }

  function PlainEvents(path: MediaPath, items: seq<Item>): seq<Event> {
    if items == [] then [] else [Entry(path, items[0].name), Declared(items[0].size)] + PlainEvents(path, items[1..])
  }

  function TotalSize(items: seq<Item>): nat {
    if items == [] then 0 else items[0].size + TotalSize(items[1..])
  }

  // Everything an entry that is no nested archive is reported for.
  function Reported(i: Item): seq<Finding> {
    i.findings + (if i.content.Relations? then i.content.findings else []) + i.after
  }

  function AllFindings(items: seq<Item>): seq<Finding> {
    if items == [] then [] else Reported(items[0]) + AllFindings(items[1..])
  }

  lemma OneEntryTotals(path: MediaPath, name: string, size: nat, start: u64, limit: nat)
    ensures var here := [Entry(path, name), Declared(size)];
            SumFrom(start, here) == SatAdd(start, size)
              && (Within(start, here, limit) <==> SatAdd(start, size) <= limit)
  {
    var here, next := [Entry(path, name), Declared(size)], SatAdd(start, size);
    assert here[1..] == [Declared(size)] && here[1..][1..] == [] && SatAdd(start, 0) == start;
    assert SumFrom(start, [Declared(size)]) == next && (Within(start, [Declared(size)], limit) <==> next <= limit) by {
      assert [Declared(size)][1..] == [];
    }
  }

  lemma {:induction false} PlainTotals(path: MediaPath, items: seq<Item>, start: u64, limit: nat)
    ensures SumFrom(start, PlainEvents(path, items)) == Min(start + TotalSize(items), U64_MAX)
    ensures start <= limit ==>
              (Within(start, PlainEvents(path, items), limit) <==> Min(start + TotalSize(items), U64_MAX) <= limit)
    decreases |items|
  {
    if items != [] {
      var here := [Entry(path, items[0].name), Declared(items[0].size)];
      TotalsConcat(start, here, PlainEvents(path, items[1..]), limit);
      var next := SatAdd(start, items[0].size);
      OneEntryTotals(path, items[0].name, items[0].size, start, limit);
      PlainTotals(path, items[1..], next, limit);
    }
  }

  // The events of entries whose size is counted before their content is looked at.
  function ItemEvents(items: seq<Item>, path: MediaPath, depth: nat, policy: Policy, lib: Library): seq<Event> {
    if items == [] then [] else
      var i := items[0];
      [Entry(path, i.name), Declared(i.size)]
      + (if i.content.Nested? then Events(i.content.data, path + [i.name], depth + 1, policy, lib) else [])
      + ItemEvents(items[1..], path, depth, policy, lib)
  }

  lemma {:induction false} PlainItemEvents(items: seq<Item>, path: MediaPath, depth: nat, policy: Policy, lib: Library)
    requires Plain(items)
    ensures ItemEvents(items, path, depth, policy, lib) == PlainEvents(path, items)
  {
    hide Events;
    if items != [] {
      PlainItemEvents(items[1..], path, depth, policy, lib);
      assert [Entry(path, items[0].name), Declared(items[0].size)] + []
             == [Entry(path, items[0].name), Declared(items[0].size)];
    }
  }

  /* Counting entries that are no nested archives */

  lemma CountedWithin(t: Tally, size: nat, path: MediaPath, policy: Policy)
    requires t.total + size <= Limit(policy)
    ensures CountEntry(t, size, path, policy) == Turn(Tally(t.findings, t.total + size), false)
  {
  }

  // An entry that is no nested archive, counted within the limit and then looked into.
  lemma PlainCounted(i: Item, path: MediaPath, depth: nat, t: Tally, policy: Policy, lib: Library)
    requires !i.content.Nested? && i.after == [] && depth <= policy.maxDepth && t.total + i.size <= Limit(policy)
    ensures var counted := CountEntry(Report(t, i.findings), i.size, path, policy);
            && !counted.stop
            && InspectContent(i.content, i.name, path, depth, counted.tally, policy, lib)
               == Tally(t.findings + Reported(i), t.total + i.size)
  {
    hide CountEntry, Limit;
    CountedWithin(Report(t, i.findings), i.size, path, policy);
    var more := if i.content.Relations? then i.content.findings else [];
    assert t.findings + i.findings + more == t.findings + (i.findings + more + []);
    assert t.findings + i.findings + [] == t.findings + i.findings;
  }

  /* The limit */

  // So many megabytes, of 1048576 bytes each.
  function LimitBytes(p: Policy): nat {
    Min(1_048_576 * p.maxUncompressedMb, U64_MAX)
  }

  lemma LimitIs(p: Policy)
    ensures Limit(p) == LimitBytes(p)
  {
  }

  lemma CountedOver(t: Tally, size: nat, path: MediaPath, policy: Policy)
    requires Min(t.total + size, U64_MAX) > Limit(policy)
    ensures CountEntry(t, size, path, policy)
            == Turn(Tally(t.findings + [Finding(path, SizeExceeded, "")], Min(t.total + size, U64_MAX)), true)
  {
  }

  // The tally where the walk stops: at entry `k` the sizes pass the limit.
  function StoppedAt(t: Tally, items: seq<Item>, k: nat, last: seq<Finding>, path: MediaPath): Tally
    requires k < |items|
  {
    Tally(t.findings + AllFindings(items[..k]) + last + [Finding(path, SizeExceeded, "")],
          Min(t.total + TotalSize(items[..k]) + items[k].size, U64_MAX))
  }

  predicate PassesAt(start: nat, items: seq<Item>, k: nat, policy: Policy) {
    && k < |items| && Plain(items)
    && start + TotalSize(items[..k]) <= LimitBytes(policy) < Min(start + TotalSize(items[..k]) + items[k].size, U64_MAX)
  }

  // The same behind the first entry.
  lemma StoppedLater(t: Tally, items: seq<Item>, k: nat, last: seq<Finding>, path: MediaPath, policy: Policy)
    requires 0 < k && PassesAt(t.total, items, k, policy)
    ensures t.total + items[0].size <= LimitBytes(policy)
    ensures var t' := Tally(t.findings + Reported(items[0]), t.total + items[0].size);
            && PassesAt(t'.total, items[1..], k - 1, policy)
            && StoppedAt(t', items[1..], k - 1, last, path) == StoppedAt(t, items, k, last, path)
  {
    hide Reported, LimitBytes;
    assert items[..k][1..] == items[1..][..k - 1] && items[..k][0] == items[0];
    assert items[1..][k - 1] == items[k];
    ConcatAssociative(t.findings, Reported(items[0]), AllFindings(items[1..][..k - 1]));
  }

  lemma StoppedFirst(t: Tally, items: seq<Item>, path: MediaPath, policy: Policy)
    requires PassesAt(t.total, items, 0, policy)
    ensures !items[0].content.Nested? && Min(t.total + items[0].size, U64_MAX) > LimitBytes(policy)
    ensures forall last ::
              StoppedAt(t, items, 0, last, path)
              == Tally(t.findings + last + [Finding(path, SizeExceeded, "")], Min(t.total + items[0].size, U64_MAX))
  {
    hide LimitBytes;
    assert t.findings + [] == t.findings;
  }
}
