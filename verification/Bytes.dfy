/** Bytes, little-endian fields and bounds-checked device, shared by every parser of the model. */
module Bytes {

  type byte = x: int | 0 <= x < 256

  datatype Option<+T> = None | Some(value: T)

  const U32_LIMIT := 0x1_0000_0000
  const U64_MAX := 0xFFFF_FFFF_FFFF_FFFF

  type u32 = x: int | 0 <= x < U32_LIMIT
  type u64 = x: int | 0 <= x <= U64_MAX

  // The saturating operations of Rust's u64.
  function SatAdd(a: nat, b: nat): u64 {
    if a + b > U64_MAX then U64_MAX else a + b
  }

  function SatSub(a: nat, b: nat): nat {
    if a < b then 0 else a - b
  }

  function SatMul(a: nat, b: nat): u64 {
    if a * b > U64_MAX then U64_MAX else a * b
  }

  function Min(a: int, b: int): int { if a <= b then a else b }

  function Max(a: int, b: int): int { if a <= b then b else a }

  // `seek` to `offset` followed by `read_exact` of `n` bytes: all of them, or a failure.
  function ReadExact(disk: seq<byte>, offset: nat, n: nat): (r: Option<seq<byte>>)
    ensures r.Some? <==> n == 0 || offset + n <= |disk|
    ensures r.Some? ==> |r.value| == n
  {
    if n == 0 then Some([]) else if offset + n <= |disk| then Some(disk[offset..offset + n]) else None
  }

  /* Little-endian fields */

  function Le(b: seq<byte>): nat {
    if b == [] then 0 else b[0] + 256 * Le(b[1..])
  }

  function Pow256(n: nat): nat {
    if n == 0 then 1 else 256 * Pow256(n - 1)
  }

  // The `n` little-endian bytes of `v`.
  function LeBytes(v: nat, n: nat): (b: seq<byte>)
    ensures |b| == n
  {
    if n == 0 then [] else [v % 256] + LeBytes(v / 256, n - 1)
  }

  lemma {:induction false} LeBound(b: seq<byte>)
    ensures Le(b) < Pow256(|b|)
  {
    if b != [] {
      LeBound(b[1..]);
    }
  }

  lemma {:induction false} LeRoundTrip(v: nat, n: nat)
    requires v < Pow256(n)
    ensures Le(LeBytes(v, n)) == v
  {
    if n > 0 {
      LeRoundTrip(v / 256, n - 1);
      assert LeBytes(v, n)[1..] == LeBytes(v / 256, n - 1);
    }
  }

  lemma {:induction false} LeInjective(a: seq<byte>, b: seq<byte>)
    requires |a| == |b| && Le(a) == Le(b)
    ensures a == b
  {
    if a != [] {
      assert a[0] == b[0] && Le(a[1..]) == Le(b[1..]);
      LeInjective(a[1..], b[1..]);
      assert a == [a[0]] + a[1..] && b == [b[0]] + b[1..];
    }
  }

  lemma Pow256Values()
    ensures Pow256(1) == 256 && Pow256(2) == 0x1_0000
    ensures Pow256(4) == U32_LIMIT
    ensures Pow256(8) == U64_MAX + 1
  {
    assert Pow256(2) == 256 * Pow256(1);
    assert Pow256(3) == 256 * Pow256(2);
    assert Pow256(4) == 256 * Pow256(3);
    assert Pow256(5) == 256 * Pow256(4);
    assert Pow256(6) == 256 * Pow256(5);
    assert Pow256(7) == 256 * Pow256(6);
    assert Pow256(8) == 256 * Pow256(7);
  }

  /* Sequences */

  lemma ConcatAssociative<T>(a: seq<T>, b: seq<T>, c: seq<T>)
    ensures (a + b) + c == a + (b + c)
  {
  }

  /* Short reads */

  // How `Read::read` behaves at each offset: it fails, or it gets at most so many bytes.
  type Reads = nat -> Option<nat>

  // What one read asking for `want` bytes gets; nothing only at the end of the disk.
  function ReadSome(disk: seq<byte>, device: Reads, offset: nat, want: nat): (r: Option<seq<byte>>)
    requires want > 0
    ensures r.None? <==> device(offset).None?
    ensures r.Some? ==> |r.value| <= want && (r.value == [] <==> offset >= |disk|)
    ensures r.Some? && r.value != [] ==> offset + |r.value| <= |disk| && r.value == disk[offset..offset + |r.value|]
  {
    var got := device(offset);
    if got.None? then None
    else if offset >= |disk| then Some([])
    else Some(disk[offset..offset + Min(Max(got.value, 1), Min(want, |disk| - offset))])
  }
}
