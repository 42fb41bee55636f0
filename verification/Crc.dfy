/**
 The checksum of the partition parser. Its feedback word is the repository's own 0xEDBABC40, not the one
 GPT prescribes; the register is defined for any feedback word so that the two can be compared.
 */
module Crc {
  import opened Bytes

  const POLY: u32 := 0xEDBA_BC40

  // Bitwise exclusive or of two natural numbers.
  function Xor(a: nat, b: nat): nat
    decreases a + b
  {
    if a == 0 && b == 0 then 0 else (if a % 2 == b % 2 then 0 else 1) + 2 * Xor(a / 2, b / 2)
  }

  // One step of the shift register, and `n` of them.
  function Shift(poly: u32, c: nat): nat {
    Xor(c / 2, if c % 2 == 1 then poly else 0)
  }

  function Shifts(poly: u32, c: nat, n: nat): nat
    decreases n
  {
    if n == 0 then c else Shifts(poly, Shift(poly, c), n - 1)
  }

  function Absorb(poly: u32, c: nat, data: seq<byte>): nat
    decreases |data|
  {
    if data == [] then c else Absorb(poly, Shifts(poly, Xor(c, data[0]), 8), data[1..])
  }

  function Crc32(data: seq<byte>): int {
    U32_LIMIT - 1 - Absorb(POLY, 0xFFFF_FFFF, data)
  }

  method ComputeCrc32(data: seq<byte>) returns (r: u32)
    ensures r == Crc32(data)
  {
    hide Xor;
    var crc: u32 := 0xFFFF_FFFF;
    Pow2Values();
    for k := 0 to |data|
      invariant Absorb(POLY, crc, data[k..]) == Absorb(POLY, 0xFFFF_FFFF, data)
    {
      XorBelow(crc, data[k], 32);
      crc := Xor(crc, data[k]);
      ghost var before := crc;
      for i := 0 to 8
        invariant Shifts(POLY, crc, 8 - i) == Shifts(POLY, before, 8)
      {
        var mask := if crc % 2 == 1 then 0xFFFF_FFFF else 0;
        ShiftBelow(POLY, crc);
        crc := Xor(crc / 2, if mask == 0 then 0 else POLY);
      }
      assert data[k..][1..] == data[k + 1..];
    }
    r := 0xFFFF_FFFF - crc;
  }

  /* Exclusive or */

  function Pow2(n: nat): nat {
    if n == 0 then 1 else 2 * Pow2(n - 1)
  }

  lemma Pow2Values()
    ensures Pow2(8) == 256 && Pow2(31) == 0x8000_0000 && Pow2(32) == U32_LIMIT
  {
    assert Pow2(4) == 16;
    assert Pow2(8) == 256;
    assert Pow2(12) == 4096;
    assert Pow2(16) == 65536;
    assert Pow2(20) == 0x10_0000;
    assert Pow2(24) == 0x100_0000;
    assert Pow2(28) == 0x1000_0000;
  }

  lemma {:induction false} XorBelow(a: nat, b: nat, n: nat)
    requires a < Pow2(n) && b < Pow2(n)
    ensures Xor(a, b) < Pow2(n)
    decreases n
  {
    if n > 0 {
      XorBelow(a / 2, b / 2, n - 1);
    }
  }

  lemma {:induction false} XorSymmetric(a: nat, b: nat)
    ensures Xor(a, b) == Xor(b, a)
    decreases a + b
  {
    if a + b > 0 {
      XorSymmetric(a / 2, b / 2);
    }
  }

  lemma {:induction false} XorAssociative(a: nat, b: nat, c: nat)
    ensures Xor(Xor(a, b), c) == Xor(a, Xor(b, c))
    decreases a + b + c
  {
    if a + b + c > 0 {
      XorParts(a, b);
      XorParts(b, c);
      XorParts(Xor(a, b), c);
      XorParts(a, Xor(b, c));
      XorAssociative(a / 2, b / 2, c / 2);
      SameHalves(Xor(Xor(a, b), c), Xor(a, Xor(b, c)));
    }
  }

  lemma {:induction false} XorZero(a: nat)
    ensures Xor(a, 0) == a && Xor(a, a) == 0
  {
    if a > 0 {
      XorZero(a / 2);
    }
  }

  lemma {:induction false} XorParts(a: nat, b: nat)
    ensures Xor(a, b) / 2 == Xor(a / 2, b / 2) && Xor(a, b) % 2 == if a % 2 == b % 2 then 0 else 1
  {
  }

  lemma SameHalves(a: nat, b: nat)
    requires a / 2 == b / 2 && a % 2 == b % 2
    ensures a == b
  {
  }

  lemma XorCancel(a: nat, b: nat, c: nat)
    requires Xor(a, c) == Xor(b, c)
    ensures a == b
  {
    XorAssociative(a, c, c);
    XorAssociative(b, c, c);
    XorZero(c);
    XorZero(a);
    XorZero(b);
  }

  lemma XorSwap(a: nat, b: nat, c: nat, d: nat)
    ensures Xor(Xor(a, b), Xor(c, d)) == Xor(Xor(a, c), Xor(b, d))
  {
    XorAssociative(Xor(a, b), c, d);
    XorAssociative(a, b, c);
    XorSymmetric(b, c);
    XorAssociative(a, c, b);
    XorAssociative(Xor(a, c), b, d);
  }

  /* The register is linear, and injective when the feedback word has its top bit set */

  lemma ShiftBelow(poly: u32, c: nat)
    requires c < U32_LIMIT
    ensures Shift(poly, c) < U32_LIMIT
  {
    Pow2Values();
    XorBelow(c / 2, if c % 2 == 1 then poly else 0, 32);
  }

  lemma ShiftLinear(poly: u32, c: nat, d: nat)
    ensures Shift(poly, Xor(c, d)) == Xor(Shift(poly, c), Shift(poly, d))
  {
    var p, q := if c % 2 == 1 then poly else 0, if d % 2 == 1 then poly else 0;
    XorParts(c, d);
    assert Xor(p, q) == if Xor(c, d) % 2 == 1 then poly else 0 by {
      XorZero(poly);
      XorSymmetric(p, q);
    }
    XorSwap(c / 2, p, d / 2, q);
  }

  // Two words that differ in their low bit cannot meet: the feedback word has its top bit set.
  lemma ShiftInjective(poly: u32, c: nat, d: nat)
    requires poly >= 0x8000_0000 && c < U32_LIMIT && d < U32_LIMIT && Shift(poly, c) == Shift(poly, d)
    ensures c == d
  {
    var p, q := if c % 2 == 1 then poly else 0, if d % 2 == 1 then poly else 0;
    if p == q {
      XorCancel(c / 2, d / 2, p);
    } else {
      XorSwap(c / 2, p, d / 2, q);
      XorZero(Xor(c / 2, p));
      XorZero(poly);
      XorSymmetric(p, q);
      assert Xor(Xor(c / 2, d / 2), poly) == 0;
      XorCancel(Xor(c / 2, d / 2), poly, poly);
      Pow2Values();
      XorBelow(c / 2, d / 2, 31);
      assert false;
    }
  }

  lemma {:induction false} ShiftsBelow(poly: u32, c: nat, n: nat)
    requires c < U32_LIMIT
    ensures Shifts(poly, c, n) < U32_LIMIT
    decreases n
  {
    if n > 0 {
      ShiftBelow(poly, c);
      ShiftsBelow(poly, Shift(poly, c), n - 1);
    }
  }

  lemma {:induction false} ShiftsLinear(poly: u32, c: nat, d: nat, n: nat)
    ensures Shifts(poly, Xor(c, d), n) == Xor(Shifts(poly, c, n), Shifts(poly, d, n))
    decreases n
  {
    if n > 0 {
      ShiftLinear(poly, c, d);
      ShiftsLinear(poly, Shift(poly, c), Shift(poly, d), n - 1);
    }
  }

  lemma {:induction false} ShiftsInjective(poly: u32, c: nat, d: nat, n: nat)
    requires poly >= 0x8000_0000 && c < U32_LIMIT && d < U32_LIMIT && Shifts(poly, c, n) == Shifts(poly, d, n)
    ensures c == d
    decreases n
  {
    if n > 0 {
      ShiftBelow(poly, c);
      ShiftBelow(poly, d);
      ShiftsInjective(poly, Shift(poly, c), Shift(poly, d), n - 1);
      ShiftInjective(poly, c, d);
    }
  }

  lemma {:induction false} ShiftsAdd(poly: u32, c: nat, n: nat, m: nat)
    ensures Shifts(poly, c, n + m) == Shifts(poly, Shifts(poly, c, n), m)
    decreases n
  {
    if n > 0 {
      ShiftsAdd(poly, Shift(poly, c), n - 1, m);
    }
  }

  lemma {:induction false} AbsorbBelow(poly: u32, c: nat, data: seq<byte>)
    requires c < U32_LIMIT
    ensures Absorb(poly, c, data) < U32_LIMIT
    decreases |data|
  {
    if data != [] {
      Pow2Values();
      XorBelow(c, data[0], 32);
      ShiftsBelow(poly, Xor(c, data[0]), 8);
      AbsorbBelow(poly, Shifts(poly, Xor(c, data[0]), 8), data[1..]);
    }
  }

  lemma Crc32Range(data: seq<byte>)
    ensures 0 <= Crc32(data) < U32_LIMIT
  {
    AbsorbBelow(POLY, 0xFFFF_FFFF, data);
  }

  lemma {:induction false} AbsorbConcat(poly: u32, c: nat, a: seq<byte>, b: seq<byte>)
    ensures Absorb(poly, c, a + b) == Absorb(poly, Absorb(poly, c, a), b)
    decreases |a|
  {
    if a == [] {
      assert a + b == b;
    } else {
      assert (a + b)[1..] == a[1..] + b;
      AbsorbConcat(poly, Shifts(poly, Xor(c, a[0]), 8), a[1..], b);
    }
  }

  // Equal data never merges two different register contents.
  lemma {:induction false} AbsorbInjective(poly: u32, c: nat, d: nat, data: seq<byte>)
    requires poly >= 0x8000_0000 && c < U32_LIMIT && d < U32_LIMIT && Absorb(poly, c, data) == Absorb(poly, d, data)
    ensures c == d
    decreases |data|
  {
    if data != [] {
      var x, y := Xor(c, data[0]), Xor(d, data[0]);
      Pow2Values();
      XorBelow(c, data[0], 32);
      XorBelow(d, data[0], 32);
      ShiftsBelow(poly, x, 8);
      ShiftsBelow(poly, y, 8);
      AbsorbInjective(poly, Shifts(poly, x, 8), Shifts(poly, y, 8), data[1..]);
      ShiftsInjective(poly, x, y, 8);
      XorCancel(c, d, data[0]);
    }
  }

  // Bytewise exclusive or of two inputs of one length.
  function XorBytes(a: seq<byte>, b: seq<byte>): (r: seq<byte>)
    requires |a| == |b|
    ensures |r| == |a|
    decreases |a|
  {
    if a == [] then [] else
      Pow2Values();
      XorBelow(a[0], b[0], 8);
      [Xor(a[0], b[0])] + XorBytes(a[1..], b[1..])
  }

  lemma {:induction false} AbsorbLinear(poly: u32, c: nat, d: nat, a: seq<byte>, b: seq<byte>)
    requires |a| == |b|
    ensures Absorb(poly, Xor(c, d), XorBytes(a, b)) == Xor(Absorb(poly, c, a), Absorb(poly, d, b))
    decreases |a|
  {
    if a != [] {
      var x := XorBytes(a, b);
      assert x[0] == Xor(a[0], b[0]) && x[1..] == XorBytes(a[1..], b[1..]);
      XorSwap(c, d, a[0], b[0]);
      ShiftsLinear(poly, Xor(c, a[0]), Xor(d, b[0]), 8);
      AbsorbLinear(poly, Shifts(poly, Xor(c, a[0]), 8), Shifts(poly, Xor(d, b[0]), 8), a[1..], b[1..]);
    }
  }

  lemma AbsorbAffine(poly: u32, i: nat, a: seq<byte>, b: seq<byte>, c: seq<byte>)
    requires |a| == |b| == |c|
    ensures Absorb(poly, i, XorBytes(XorBytes(a, b), c))
            == Xor(Xor(Absorb(poly, i, a), Absorb(poly, i, b)), Absorb(poly, i, c))
  {
    hide Xor, XorBytes, Absorb;
    XorZero(i);
    AbsorbLinear(poly, i, i, a, b);
    XorSymmetric(0, i);
    AbsorbLinear(poly, 0, i, XorBytes(a, b), c);
  }

  /** The checksum is affine: for inputs of one length, the XOR of three checksums is the checksum of the XOR. */
  lemma Crc32Affine(a: seq<byte>, b: seq<byte>, c: seq<byte>)
    requires |a| == |b| == |c|
    ensures Crc32(a) >= 0 && Crc32(b) >= 0 && Crc32(c) >= 0
    ensures Crc32(XorBytes(XorBytes(a, b), c)) == Xor(Xor(Crc32(a), Crc32(b)), Crc32(c))
  {
    hide Xor, XorBytes, Absorb;
    var i := 0xFFFF_FFFF;
    AbsorbBelow(POLY, i, a);
    AbsorbBelow(POLY, i, b);
    AbsorbBelow(POLY, i, c);
    AbsorbAffine(POLY, i, a, b, c);
    AffineComplement(Absorb(POLY, i, a), Absorb(POLY, i, b), Absorb(POLY, i, c));
  }

  lemma AffineComplement(x: u32, y: u32, z: u32)
    ensures Xor(Xor(x, y), z) < U32_LIMIT
    ensures Xor(Xor(U32_LIMIT - 1 - x, U32_LIMIT - 1 - y), U32_LIMIT - 1 - z) == U32_LIMIT - 1 - Xor(Xor(x, y), z)
  {
    hide Xor;
    var i := U32_LIMIT - 1;
    Pow2Values();
    XorBelow(x, y, 32);
    XorBelow(Xor(x, y), z, 32);
    Complement(x, 32);
    Complement(y, 32);
    Complement(z, 32);
    Complement(Xor(Xor(x, y), z), 32);
    XorSwap(x, i, y, i);
    XorZero(i);
    XorZero(Xor(x, y));
    XorAssociative(Xor(x, y), z, i);
  }

  // Subtracting from all ones flips every bit.
  lemma {:induction false} Complement(x: nat, n: nat)
    requires x < Pow2(n)
    ensures Pow2(n) - 1 - x == Xor(x, Pow2(n) - 1)
    decreases n
  {
    if n > 0 {
      Complement(x / 2, n - 1);
    }
  }

  /* Four bytes at a time */

  // `y` moved `n` places towards the high end.
  function Up(y: nat, n: nat): nat {
    if n == 0 then y else 2 * Up(y, n - 1)
  }

  lemma UpByte(y: nat)
    ensures Up(y, 8) == 256 * y
  {
    assert Up(y, 1) == 2 * y;
    assert Up(y, 3) == 8 * y;
    assert Up(y, 5) == 32 * y;
    assert Up(y, 7) == 128 * y;
  }

  lemma {:induction false} ShiftsOut(poly: u32, y: nat, n: nat)
    ensures Shifts(poly, Up(y, n), n) == y
    decreases n
  {
    if n > 0 {
      XorZero(Up(y, n - 1));
      ShiftsOut(poly, y, n - 1);
    }
  }

  // Low bits and a part moved above them do not meet.
  lemma {:induction false} XorDisjoint(low: nat, y: nat, n: nat)
    requires low < Pow2(n)
    ensures Xor(low, Up(y, n)) == low + Up(y, n)
    decreases n
  {
    if n == 0 {
      XorZero(y);
      XorSymmetric(0, y);
    } else {
      XorDisjoint(low / 2, y, n - 1);
      XorParts(low, Up(y, n));
      hide Xor;
      SameHalves(Xor(low, Up(y, n)), low + Up(y, n));
    }
  }

  // Shifting `n` places moves the upper part of the word, untouched, under the image of its low part.
  lemma ShiftLowOut(poly: u32, c: nat, low: nat, high: nat, n: nat)
    requires low < Pow2(n)
    ensures Shifts(poly, Xor(c, low + Up(high, n)), n) == Xor(Shifts(poly, Xor(c, low), n), high)
  {
    hide Xor, Shifts, Up;
    XorDisjoint(low, high, n);
    XorAssociative(c, low, Up(high, n));
    ShiftsLinear(poly, Xor(c, low), Up(high, n), n);
    ShiftsOut(poly, high, n);
  }

  lemma ShiftsNone(poly: u32, c: nat)
    ensures Shifts(poly, c, 0) == c
  {
  }

  // Absorbing bytes is shifting their little-endian word through the register.
  lemma {:induction false} AbsorbWord(poly: u32, c: nat, w: seq<byte>)
    ensures Absorb(poly, c, w) == Shifts(poly, Xor(c, Le(w)), 8 * |w|)
    decreases |w|
  {
    hide Xor, Shifts;
    if w == [] {
      XorZero(c);
      ShiftsNone(poly, c);
    } else {
      var n, rest := 8 * (|w| - 1), Le(w[1..]);
      AbsorbWord(poly, Shifts(poly, Xor(c, w[0]), 8), w[1..]);
      Pow2Values();
      UpByte(rest);
      ShiftLowOut(poly, c, w[0], rest, 8);
      ShiftsAdd(poly, Xor(c, w[0] + 256 * rest), 8, n);
      assert 8 + n == 8 * |w|;
    }
  }

  /** Any change confined to four consecutive bytes changes the checksum. */
  lemma BurstDetected(pre: seq<byte>, w: seq<byte>, w': seq<byte>, post: seq<byte>)
    requires |w| == |w'| <= 4 && w != w'
    ensures Crc32(pre + w + post) != Crc32(pre + w' + post)
  {
    var c := Absorb(POLY, 0xFFFF_FFFF, pre);
    AbsorbBelow(POLY, 0xFFFF_FFFF, pre);
    AbsorbConcat(POLY, 0xFFFF_FFFF, pre, w);
    AbsorbConcat(POLY, 0xFFFF_FFFF, pre, w');
    AbsorbConcat(POLY, 0xFFFF_FFFF, pre + w, post);
    AbsorbConcat(POLY, 0xFFFF_FFFF, pre + w', post);
    if Crc32(pre + w + post) == Crc32(pre + w' + post) {
      AbsorbBelow(POLY, c, w);
      AbsorbBelow(POLY, c, w');
      AbsorbInjective(POLY, Absorb(POLY, c, w), Absorb(POLY, c, w'), post);
      AbsorbWord(POLY, c, w);
      AbsorbWord(POLY, c, w');
      WordBelow(w);
      WordBelow(w');
      Pow2Values();
      XorBelow(c, Le(w), 32);
      XorBelow(c, Le(w'), 32);
      ShiftsInjective(POLY, Xor(c, Le(w)), Xor(c, Le(w')), 8 * |w|);
      XorSymmetric(c, Le(w));
      XorSymmetric(c, Le(w'));
      XorCancel(Le(w), Le(w'), c);
      LeInjective(w, w');
      assert false;
    }
  }

  lemma WordBelow(w: seq<byte>)
    requires |w| <= 4
    ensures Le(w) < U32_LIMIT
  {
    LeBound(w);
    Pow256Values();
  }

  /* The checksum GPT prescribes */

  // The reflected polynomial of CRC-32, as the UEFI Specification requires it for GPT.
  const STANDARD_POLY: u32 := 0xEDB8_8320

  function StandardCrc32(data: seq<byte>): int {
    U32_LIMIT - 1 - Absorb(STANDARD_POLY, 0xFFFF_FFFF, data)
  }

  lemma StandardCrc32Range(data: seq<byte>)
    ensures 0 <= StandardCrc32(data) < U32_LIMIT
  {
    AbsorbBelow(STANDARD_POLY, 0xFFFF_FFFF, data);
  }

  /** The two registers part at the first set bit shifted out, and not before. */
  lemma StepAgreesIff(c: nat)
    ensures Shift(POLY, c) == Shift(STANDARD_POLY, c) <==> c % 2 == 0
  {
    hide Xor;
    XorSymmetric(c / 2, POLY);
    XorSymmetric(c / 2, STANDARD_POLY);
    if Xor(POLY, c / 2) == Xor(STANDARD_POLY, c / 2) {
      XorCancel(POLY, STANDARD_POLY, c / 2);
    }
  }

  lemma ShiftEven(poly: u32, c: nat)
    requires c % 2 == 0
    ensures Shift(poly, c) == c / 2
  {
    hide Xor;
    XorZero(c / 2);
  }

  // Zeros shifted out leave the feedback word out of it.
  lemma {:induction false} ShiftsThroughZeros(poly: u32, c: nat, n: nat)
    ensures Shifts(poly, Up(c, n), n + 1) == Shift(poly, c)
    decreases n
  {
    hide Xor, Shift;
    if n == 0 {
      assert Up(c, 0) == c;
    } else {
      assert Up(c, n) == 2 * Up(c, n - 1);
      ShiftEven(poly, Up(c, n));
      ShiftsThroughZeros(poly, c, n - 1);
    }
  }

  lemma UpSeven(y: nat)
    ensures Up(y, 7) == 128 * y
  {
    assert Up(y, 1) == 2 * y;
    assert Up(y, 3) == 8 * y;
    assert Up(y, 5) == 32 * y;
  }

  lemma TopBit(x: nat)
    requires x < 128
    ensures Xor(x, 128) == x + 128
  {
    UpSeven(1);
    assert Pow2(7) == 128 by {
      assert Pow2(3) == 8;
    }
    XorDisjoint(x, 1, 7);
  }

  // What the last byte of the data does to the register.
  lemma LastByte(poly: u32, c: nat, data: seq<byte>, x: byte)
    ensures Absorb(poly, c, data + [x]) == Shifts(poly, Xor(Absorb(poly, c, data), x), 8)
  {
    hide Xor, Shifts;
    AbsorbConcat(poly, c, data, [x]);
  }

  lemma LastByteTwin(poly: u32, data: seq<byte>, x: byte)
    requires x < 128
    ensures var c := 0xFFFF_FFFF;
            Absorb(poly, c, data + [x + 128]) == Xor(Absorb(poly, c, data + [x]), Shift(poly, 1))
  {
    hide Xor, Shifts, Absorb, Shift, Up;
    var r := Absorb(poly, 0xFFFF_FFFF, data);
    LastByte(poly, 0xFFFF_FFFF, data, x);
    LastByte(poly, 0xFFFF_FFFF, data, x + 128);
    TopBit(x);
    XorAssociative(r, x, 128);
    ShiftsLinear(poly, Xor(r, x), 128, 8);
    UpSeven(1);
    ShiftsThroughZeros(poly, 1, 7);
  }

  /**
   So the checksum the parser computes is not the one GPT prescribes: of any two inputs that differ in the
   top bit of their last byte, on one at least the two checksums differ.
   */
  lemma NotTheStandard(data: seq<byte>, x: byte)
    requires x < 128
    ensures Crc32(data + [x]) != StandardCrc32(data + [x]) || Crc32(data + [x + 128]) != StandardCrc32(data + [x + 128])
  {
    hide Xor, Absorb, Shift;
    LastByteTwin(POLY, data, x);
    LastByteTwin(STANDARD_POLY, data, x);
    StepAgreesIff(1);
    var r := Absorb(POLY, 0xFFFF_FFFF, data + [x]);
    XorSymmetric(r, Shift(POLY, 1));
    XorSymmetric(r, Shift(STANDARD_POLY, 1));
    if Xor(Shift(POLY, 1), r) == Xor(Shift(STANDARD_POLY, 1), r) {
      XorCancel(Shift(POLY, 1), Shift(STANDARD_POLY, 1), r);
    }
  }

  lemma {:induction false} XorOnes(x: nat, n: nat)
    requires x < Pow2(n)
    ensures Xor(Pow2(n) - 1, x) == Pow2(n) - 1 - x
  {
    Complement(x, n);
    XorSymmetric(x, Pow2(n) - 1);
  }

  /** A check value: the checksum of the single byte 0x7F. */
  lemma CheckValue()
    ensures Crc32([0x7F]) == 0x12BA_BC40
  {
    hide Xor, Shifts, Shift, Up;
    var c := 0x1FF_FFFF;
    Pow2Values();
    MarkByte();
    ShiftsThroughZeros(POLY, c, 7);
    assert [0x7F as byte][1..] == [];
    assert Absorb(POLY, 0xFFFF_FFFF, [0x7F]) == Shift(POLY, c);
    MarkShift();
  }

  lemma MarkByte()
    ensures Xor(0xFFFF_FFFF, 0x7F) == Up(0x1FF_FFFF, 7)
  {
    hide Xor, Up;
    Pow2Values();
    XorOnes(0x7F, 32);
    UpSeven(0x1FF_FFFF);
  }

  lemma MarkShift()
    ensures Shift(POLY, 0x1FF_FFFF) == 0xED45_43BF
  {
    hide Xor, Up;
    var low, high := 0xBA_BC40, 0xED;
    Pow2Values();
    assert Pow2(24) == 0x100_0000 by {
      assert Pow2(12) == 4096 && Pow2(16) == 65536 && Pow2(20) == 0x10_0000;
    }
    XorDisjoint(low, high, 24);
    UpPow(high, 24);
    assert POLY == Xor(low, Up(high, 24));
    XorAssociative(0xFF_FFFF, low, Up(high, 24));
    XorOnes(low, 24);
    XorDisjoint(0x45_43BF, high, 24);
    assert Xor(0xFF_FFFF, POLY) == 0xED45_43BF;
  }

  lemma {:induction false} UpPow(y: nat, n: nat)
    ensures Up(y, n) == Pow2(n) * y
  {
    if n > 0 {
      UpPow(y, n - 1);
      assert 2 * (Pow2(n - 1) * y) == 2 * Pow2(n - 1) * y;
    }
  }
}
