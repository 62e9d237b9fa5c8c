/** Polynomials over GF(2) as bit strings, highest coefficient first, and division by a monic
    polynomial of degree 32 whose remaining coefficients are `POLY`. */
module Gf2 {

  type Bits = seq<bool>

  function Zeros(n: nat): (z: Bits)
    ensures |z| == n && forall i :: 0 <= i < n ==> !z[i]
  {
    seq(n, _ => false)
  }

  function Xor(a: Bits, b: Bits): (c: Bits)
    requires |a| == |b|
    ensures |c| == |a| && forall i :: 0 <= i < |a| ==> c[i] == (a[i] != b[i])
  {
    seq(|a|, i requires 0 <= i < |a| => a[i] != b[i])
  }

  /** The low `width` bits of `n`. */
  function FromNat(n: nat, width: nat): (b: Bits)
    ensures |b| == width
    ensures width > 0 ==> b[width - 1] == (n % 2 == 1)
  {
    if width == 0 then [] else FromNat(n / 2, width - 1) + [n % 2 == 1]
  }

  type Word = w: Bits | |w| == 32 witness Zeros(32)

  /** x^32 + x^26 + x^23 + ... + 1 without its leading term. */
  const POLY: Word := FromNat(0x04C11DB7, 32)

  const ZERO: Word := Zeros(32)

  lemma {:induction false} LastBit(n: nat, width: nat)
    requires width > 0
    ensures FromNat(n, width) == FromNat(n / 2, width - 1) + [n % 2 == 1]
  {
  }

  lemma {:induction false} LastDigit(n: nat, width: nat)
    requires width >= 4
    ensures FromNat(n, width) ==
      FromNat(n / 16, width - 4) + [n / 8 % 2 == 1, n / 4 % 2 == 1, n / 2 % 2 == 1, n % 2 == 1]
  {
    hide FromNat;
    assert n / 2 / 2 == n / 4 && n / 4 / 2 == n / 8 && n / 8 / 2 == n / 16;
    LastBit(n, width);
    LastBit(n / 2, width - 1);
    LastBit(n / 4, width - 2);
    LastBit(n / 8, width - 3);
  }

  /** The generator's exponents below 32; index `i` is the coefficient of x^(31 - i). */
  lemma {:induction false} PolyExponents()
    ensures forall i :: 0 <= i < 32 ==>
      POLY[i] == (31 - i in {26, 23, 22, 16, 12, 11, 10, 8, 7, 5, 4, 2, 1, 0})
  {
    hide FromNat;
    LastDigit(0x04C1_1DB7, 32);
    LastDigit(0x04C1_1DB, 28);
    LastDigit(0x04C1_1D, 24);
    LastDigit(0x04C1_1, 20);
    LastDigit(0x04C1, 16);
    LastDigit(0x04C, 12);
    LastDigit(0x04, 8);
    LastDigit(0, 4);
  }

  /** Multiply the register by x, add `bit`, and reduce. */
  function Push(r: Word, bit: bool): (s: Word) {
    if r[0] then Xor(r[1..] + [bit], POLY) else r[1..] + [bit]
  }

  function PushAll(r: Word, bits: Bits): (s: Word) {
    if bits == [] then r else Push(PushAll(r, bits[..|bits| - 1]), bits[|bits| - 1])
  }

  /** The remainder computed by Horner's rule, one coefficient at a time. */
  function Rem(p: Bits): (r: Word) {
    PushAll(ZERO, p)
  }

  /** The polynomial q * (x^32 + POLY) + r, by schoolbook multiplication. */
  function MulAdd(q: Bits, r: Word): (p: Bits)
    ensures |p| == |q| + 32
  {
    if q == [] then r
    else
      Xor([q[0]] + (if q[0] then POLY else ZERO) + Zeros(|q| - 1), [false] + MulAdd(q[1..], r))
  }

  /** The generator divides `p`. */
  ghost predicate Divides(p: Bits) {
    exists q: Bits :: |q| == |p| && MulAdd(q, ZERO) == ZERO + p
  }

  lemma {:induction false} PushAllAppend(r: Word, a: Bits, b: Bits)
    ensures PushAll(r, a + b) == PushAll(PushAll(r, a), b)
    decreases |b|
  {
    if b == [] {
      assert a + b == a;
    } else {
      var b' := b[..|b| - 1];
      assert (a + b)[..|a + b| - 1] == a + b';
      PushAllAppend(r, a, b');
    }
  }

  lemma {:induction false} XorSnoc(a: Bits, b: Bits, bit: bool)
    requires |a| == |b|
    ensures Xor(a + [false], b + [bit]) == Xor(a, b) + [bit]
  {
  }

  lemma {:induction false} PushDividesOnce(r: Word, bit: bool)
    ensures MulAdd([r[0]], Push(r, bit)) == r + [bit]
  {
    hide FromNat;
    var high := [r[0]] + (if r[0] then POLY else ZERO) + Zeros(0);
    assert [r[0]][1..] == [];
    forall i | 0 <= i < 33
      ensures Xor(high, [false] + Push(r, bit))[i] == (r + [bit])[i]
    {
    }
  }

  /** One Horner step is one step of long division. */
  lemma {:induction false} PushDivides(q: Bits, r: Word, bit: bool)
    ensures MulAdd(q + [r[0]], Push(r, bit)) == MulAdd(q, r) + [bit]
    decreases |q|
  {
    hide FromNat, Push, Xor;
    var t, s := q + [r[0]], Push(r, bit);
    if q == [] {
      assert t == [r[0]];
      PushDividesOnce(r, bit);
    } else {
      assert t[1..] == q[1..] + [r[0]];
      PushDivides(q[1..], r, bit);
      var low := [q[0]] + (if q[0] then POLY else ZERO);
      var rest := [false] + MulAdd(q[1..], r);
      assert low + Zeros(|q|) == low + Zeros(|q| - 1) + [false];
      assert [false] + MulAdd(t[1..], s) == rest + [bit];
      XorSnoc(low + Zeros(|q| - 1), rest, bit);
    }
  }

  /** The quotient of long division, one bit per pushed coefficient. */
  function Quotient(r: Word, bits: Bits): (q: Bits)
    ensures |q| == |bits|
  {
    if bits == [] then []
    else
      var front := bits[..|bits| - 1];
      Quotient(r, front) + [PushAll(r, front)[0]]
  }

  /** Division with remainder: dividend = quotient * generator + register. */
  lemma {:induction false} Division(r: Word, bits: Bits)
    ensures MulAdd(Quotient(r, bits), PushAll(r, bits)) == r + bits
  {
    hide FromNat, Push, PushAll, Xor, Quotient;
    DivisionStart(r);
    if bits != [] {
      var front, last := bits[..|bits| - 1], bits[|bits| - 1];
      assert bits == front + [last];
      Division(r, front);
      DivisionStep(r, front, last);
    }
  }

  lemma {:induction false} DivisionStart(r: Word)
    ensures MulAdd(Quotient(r, []), PushAll(r, [])) == r + []
  {
    assert r + [] == r;
  }

  lemma {:induction false} DivisionStep(r: Word, front: Bits, last: bool)
    requires MulAdd(Quotient(r, front), PushAll(r, front)) == r + front
    ensures MulAdd(Quotient(r, front + [last]), PushAll(r, front + [last])) == r + (front + [last])
  {
    hide FromNat, Push, Xor, MulAdd;
    assert (front + [last])[..|front|] == front;
    PushDivides(Quotient(r, front), PushAll(r, front), last);
    assert r + (front + [last]) == (r + front) + [last];
  }

  lemma {:induction false} XorCancel(x: Bits, a: Bits, b: Bits)
    requires |x| == |a| == |b| && Xor(x, a) == Xor(x, b)
    ensures a == b
  {
    forall i | 0 <= i < |a|
      ensures a[i] == b[i]
    {
      assert Xor(x, a)[i] == Xor(x, b)[i];
    }
  }

  /** Quotient and remainder are unique, so `Rem` is the remainder. */
  lemma {:induction false} DivisionUnique(q: Bits, r: Word, q': Bits, r': Word)
    requires |q| == |q'| && MulAdd(q, r) == MulAdd(q', r')
    ensures q == q' && r == r'
    decreases |q|
  {
    hide FromNat;
    if q != [] {
      var p, p' := MulAdd(q, r), MulAdd(q', r');
      assert p[0] == q[0] && p'[0] == q'[0];
      var a, a' := MulAdd(q[1..], r), MulAdd(q'[1..], r');
      XorCancel([q[0]] + (if q[0] then POLY else ZERO) + Zeros(|q| - 1), [false] + a, [false] + a');
      assert ([false] + a)[1..] == a && ([false] + a')[1..] == a';
      DivisionUnique(q[1..], r, q'[1..], r');
      assert q == [q[0]] + q[1..] && q' == [q'[0]] + q'[1..];
    }
  }

  /** What the register holds is the remainder, and nothing else is. */
  lemma {:induction false} RemIsRemainder(p: Bits, r: Word)
    ensures r == Rem(p) <==> exists q: Bits :: |q| == |p| && MulAdd(q, r) == ZERO + p
  {
    Division(ZERO, p);
    if q: Bits :| |q| == |p| && MulAdd(q, r) == ZERO + p {
      DivisionUnique(q, r, Quotient(ZERO, p), Rem(p));
    }
  }

  lemma {:induction false} PushLinear(r: Word, s: Word, a: bool, b: bool)
    ensures Push(Xor(r, s), a != b) == Xor(Push(r, a), Push(s, b))
  {
    hide FromNat;
  }

  lemma {:induction false} PushAllLinear(r: Word, s: Word, a: Bits, b: Bits)
    requires |a| == |b|
    ensures PushAll(Xor(r, s), Xor(a, b)) == Xor(PushAll(r, a), PushAll(s, b))
    decreases |a|
  {
    if a != [] {
      var n := |a| - 1;
      assert Xor(a, b)[..n] == Xor(a[..n], b[..n]);
      PushAllLinear(r, s, a[..n], b[..n]);
      PushLinear(PushAll(r, a[..n]), PushAll(s, b[..n]), a[n], b[n]);
    }
  }

  lemma {:induction false} RemLinear(a: Bits, b: Bits)
    requires |a| == |b|
    ensures Rem(Xor(a, b)) == Xor(Rem(a), Rem(b))
  {
    assert Xor(ZERO, ZERO) == ZERO;
    PushAllLinear(ZERO, ZERO, a, b);
  }

  /** A polynomial of degree below 32 is its own remainder. */
  lemma {:induction false} RemShort(p: Bits)
    requires |p| <= 32
    ensures Rem(p) == Zeros(32 - |p|) + p
  {
    if p == [] {
      assert Zeros(32) + p == ZERO;
    } else {
      var front, last := p[..|p| - 1], p[|p| - 1];
      RemShort(front);
      assert !Rem(front)[0];
      assert Rem(front)[1..] + [last] == Zeros(32 - |p|) + p;
    }
  }

  lemma {:induction false} PushZero(r: Word)
    ensures Push(r, false) == ZERO <==> r == ZERO
  {
    assert POLY[31];
    assert Push(ZERO, false) == ZERO;
    if Push(r, false) == ZERO {
      assert Push(r, false)[31] == r[0];
      forall i | 0 < i < 32
        ensures !r[i]
      {
        assert (r[1..] + [false])[i - 1] == r[i];
      }
      assert r == ZERO;
    }
  }

  /** Multiplying by x never loses a non-zero remainder: the generator's constant term is 1. */
  lemma {:induction false} ShiftKeepsNonZero(r: Word, n: nat)
    ensures PushAll(r, Zeros(n)) == ZERO <==> r == ZERO
  {
    if n > 0 {
      assert Zeros(n)[..n - 1] == Zeros(n - 1);
      ShiftKeepsNonZero(r, n - 1);
      PushZero(PushAll(r, Zeros(n - 1)));
    }
  }

  lemma {:induction false} XorZero(a: Bits, b: Bits)
    requires |a| == |b|
    ensures Xor(a, b) == Zeros(|a|) <==> a == b
  {
    assert Xor(a, a) == Zeros(|a|);
    if Xor(a, b) == Zeros(|a|) {
      forall i | 0 <= i < |a|
        ensures a[i] == b[i]
      {
        assert !Xor(a, b)[i];
      }
    }
  }

  lemma {:induction false} RemPieces(n: nat, middle: Bits, m: nat)
    ensures Rem(Zeros(n) + middle + Zeros(m)) == PushAll(Rem(middle), Zeros(m))
  {
    hide FromNat, Push, PushAll;
    PushAllAppend(ZERO, Zeros(n) + middle, Zeros(m));
    PushAllAppend(ZERO, Zeros(n), middle);
    ShiftKeepsNonZero(ZERO, n);
  }

  /** A burst no longer than the generator's degree is never a multiple of the generator. */
  lemma {:induction false} BurstNotDivisible(p: Bits, at: nat, len: nat)
    requires at + len <= |p| && len <= 32 && exists i :: 0 <= i < |p| && p[i]
    requires forall i :: 0 <= i < |p| && p[i] ==> at <= i < at + len
    ensures Rem(p) != ZERO
  {
    hide FromNat, Push, PushAll, Rem;
    var head, burst, tail := p[..at], p[at..at + len], p[at + len..];
    assert head == Zeros(at) && tail == Zeros(|p| - at - len);
    assert p == head + burst + tail;
    RemPieces(at, burst, |p| - at - len);
    RemShort(burst);
    var i :| 0 <= i < |p| && p[i];
    assert Rem(burst)[32 - len + i - at];
    ShiftKeepsNonZero(Rem(burst), |p| - at - len);
  }
}

/** The boot ROM self-check: a bit-serial CRC loop over the image, and what it detects. */
module BootCrc {
  import opened Prelude
  import opened Gf2

  type Byte = b: Bits | |b| == 8 witness Zeros(8)

  /** Eight rounds of the inner loop, or fewer. */
  function Shifts(r: Word, n: nat): Word
    decreases n
  {
    if n == 0 then r else Shifts(Push(r, false), n - 1)
  }

  /** A byte enters at the low end of the register, then eight shifts follow. */
  function FeedByte(r: Word, b: Byte): Word {
    Shifts(Xor(r, Zeros(24) + b), 8)
  }

  function Feed(r: Word, image: seq<Byte>): Word
    decreases |image|
  {
    if image == [] then r else Feed(FeedByte(r, image[0]), image[1..])
  }

  /** The two instructions after the loop. */
  function Finish(r: Word): Word {
    Xor(Xor(r, POLY), FromNat(0xFFFF_FFFF, 32))
  }

  function Checksum(init: Word, image: seq<Byte>): Word {
    Finish(Feed(init, image))
  }

  type Address = a: nat | a < U32

  /** The bytes at signed addresses from `start` up to `end`, the boundary between 0xFFFF_FFFF and 0
      crossed; none when the range is empty or reversed. */
  function Image(mem: Address -> Byte, start: int, end: int): seq<Byte>
    decreases end - start
  {
    if start >= end then [] else [mem(start % U32)] + Image(mem, start + 1, end)
  }

  /** The branch of the inner loop is one Horner step. */
  lemma {:induction false} PushIsShift(r: Word)
    ensures Push(r, false) == if r[0] then Xor(ShiftLeft(r), POLY) else ShiftLeft(r)
  {
  }

  /** One byte per address, in order. */
  lemma {:induction false} ImageBytes(mem: Address -> Byte, start: int, end: int)
    ensures var image := Image(mem, start, end);
      |image| == (if start < end then end - start else 0) &&
      forall i :: 0 <= i < |image| ==> image[i] == mem((start + i) % U32)
    decreases end - start
  {
    if start < end {
      ImageBytes(mem, start + 1, end);
    }
  }

  /** Below the end the increment does not wrap in the signed order. */
  lemma {:induction false} NextAddress(a: Address, end: Address)
    requires Signed(a) < Signed(end)
    ensures Signed((a + 1) % U32) == Signed(a) + 1 && Signed(a) % U32 == a
  {
  }

  lemma {:induction false} ByteShifted(r: Word, b: Byte)
    ensures Shifts(Shifts(Xor(r, Zeros(24) + b), 8), 0) == FeedByte(r, b)
  {
    hide Push;
  }

  /** _crc32_check: a0 runs from `start` to `end`, a2 is the register, t3 counts the bits. */
  method Crc32Check(mem: Address -> Byte, start: Address, end: Address, init: Word) returns (crc: Word)
    ensures crc == Checksum(init, Image(mem, Signed(start), Signed(end)))
  {
    hide FromNat, Push, FeedByte;
    var a0: Address := start;
    var a2: Word := init;
    ghost var goal := Feed(init, Image(mem, Signed(start), Signed(end)));
    while Signed(a0) < Signed(end)
      invariant Feed(a2, Image(mem, Signed(a0), Signed(end))) == goal
      decreases Signed(end) - Signed(a0)
    {
      ghost var before := a2;
      ghost var image := Image(mem, Signed(a0), Signed(end));
      NextAddress(a0, end);
      a2 := Xor(a2, Zeros(24) + mem(a0));
      ghost var entered := a2;
      var t3 := 8;
      while t3 != 0
        invariant 0 <= t3 <= 8 && Shifts(a2, t3) == Shifts(entered, 8)
      {
        ghost var shifting := a2;
        var t4 := a2[0];
        a2 := ShiftLeft(a2);
        if t4 {
          a2 := Xor(a2, POLY);
        }
        t3 := t3 - 1;
        PushIsShift(shifting);
      }
      assert image[0] == mem(a0) && image[1..] == Image(mem, Signed(a0) + 1, Signed(end));
      ByteShifted(before, mem(a0));
      a0 := (a0 + 1) % U32;
    }
    crc := Finish(a2);
  }

  function ShiftLeft(r: Word): Word {
    r[1..] + [false]
  }

  // ---------------------------------------------------------------------------------------
  // The loop nest is a polynomial remainder
  // ---------------------------------------------------------------------------------------

  /** All bits of the image, first byte first, each byte's high bit first. */
  function BitsOf(image: seq<Byte>): (bits: Bits)
    ensures |bits| == 8 * |image|
  {
    if image == [] then [] else BitsOf(image[..|image| - 1]) + image[|image| - 1]
  }

  /** init * x^(8n) + x^8 * M(x). */
  function Dividend(init: Word, image: seq<Byte>): (p: Bits)
    ensures |p| == 8 * |image| + 32
  {
    Xor(init + Zeros(8 * |image|), Zeros(24) + BitsOf(image) + Zeros(8))
  }

  /** The register composes over concatenation of images. */
  lemma {:induction false} FeedComposes(r: Word, a: seq<Byte>, b: seq<Byte>)
    ensures Feed(r, a + b) == Feed(Feed(r, a), b)
    decreases |a|
  {
    if a == [] {
      assert a + b == b;
    } else {
      assert (a + b)[1..] == a[1..] + b;
      FeedComposes(FeedByte(r, a[0]), a[1..], b);
    }
  }

  lemma {:induction false} FeedOne(r: Word, b: Byte)
    ensures Feed(r, [b]) == FeedByte(r, b)
  {
    hide FeedByte;
  }

  lemma {:induction false} ShiftsArePushes(r: Word, n: nat)
    ensures Shifts(r, n) == PushAll(r, Zeros(n))
    decreases n
  {
    if n > 0 {
      ShiftsArePushes(Push(r, false), n - 1);
      assert Zeros(n) == [false] + Zeros(n - 1);
      PushAllAppend(r, [false], Zeros(n - 1));
      assert PushAll(r, [false]) == Push(PushAll(r, []), false);
    }
  }

  lemma {:induction false} XorConcat(a: Bits, b: Bits, c: Bits, d: Bits)
    requires |a| == |c| && |b| == |d|
    ensures Xor(a + b, c + d) == Xor(a, c) + Xor(b, d)
  {
  }

  /** Appending a byte multiplies the dividend by x^8 after adding the byte at the low end. */
  lemma {:induction false} DividendAppend(init: Word, image: seq<Byte>, b: Byte)
    ensures Dividend(init, image + [b]) ==
      Xor(Dividend(init, image), Zeros(8 * |image| + 24) + b) + Zeros(8)
  {
    hide FromNat;
    var n, m := 8 * |image|, BitsOf(image);
    assert (image + [b])[..|image|] == image;
    XorConcat(init + Zeros(n), Zeros(8), Zeros(24) + m + b, Zeros(8));
    assert Xor(Zeros(8), Zeros(8)) == Zeros(8);
    assert init + Zeros(n + 8) == init + Zeros(n) + Zeros(8);
    assert Zeros(24) + (m + b) + Zeros(8) == Zeros(24) + m + b + Zeros(8);
    XorLowByte(init + Zeros(n), Zeros(24) + m, b);
  }

  lemma {:induction false} XorLowByte(a: Bits, m: Bits, b: Byte)
    requires |a| == |m| + 8
    ensures Xor(a, m + b) == Xor(Xor(a, m + Zeros(8)), Zeros(|m|) + b)
  {
  }

  /** Leading zeros do not change a remainder. */
  lemma {:induction false} RemLeadingZeros(n: nat, p: Bits)
    ensures Rem(Zeros(n) + p) == Rem(p)
  {
    PushAllAppend(ZERO, Zeros(n), p);
    ShiftKeepsNonZero(ZERO, n);
  }

  lemma {:induction false} DividendOfNothing(init: Word)
    ensures Rem(Dividend(init, [])) == init
  {
    assert init + Zeros(0) == init;
    assert Zeros(24) + BitsOf([]) + Zeros(8) == ZERO;
    assert Dividend(init, []) == init;
    RemShort(init);
    assert Zeros(0) + init == init;
  }

  /** One byte of the loop nest, on remainders: add the byte, multiply by x^8. */
  lemma {:induction false} FeedByteOnRemainder(p: Bits, b: Byte)
    requires |p| >= 32
    ensures FeedByte(Rem(p), b) == Rem(Xor(p, Zeros(|p| - 8) + b) + Zeros(8))
  {
    var low := Zeros(|p| - 8) + b;
    PushAllAppend(ZERO, Xor(p, low), Zeros(8));
    RemLinear(p, low);
    RemLeadingZeros(|p| - 8, b);
    RemShort(b);
    ShiftsArePushes(Rem(Xor(p, low)), 8);
  }

  /** The loop nest computes (init * x^(8n) + x^8 * M(x)) modulo the generator. */
  lemma {:induction false} FeedIsRemainder(init: Word, image: seq<Byte>)
    ensures Feed(init, image) == Rem(Dividend(init, image))
    decreases |image|
  {
    hide *;
    FeedNothing(init);
    DividendOfNothing(init);
    if image != [] {
      var n := |image| - 1;
      FeedIsRemainder(init, image[..n]);
      assert image == image[..n] + [image[n]];
      FeedComposes(init, image[..n], [image[n]]);
      FeedOne(Feed(init, image[..n]), image[n]);
      DividendAppend(init, image[..n], image[n]);
      FeedByteOnRemainder(Dividend(init, image[..n]), image[n]);
    }
  }

  lemma {:induction false} FeedNothing(init: Word)
    ensures Feed(init, []) == init
  {
  }

  /** The same with division spelled out: some quotient turns generator and register into the
      dividend, and no other register value does. */
  lemma {:induction false} FeedDividesOut(init: Word, image: seq<Byte>, r: Word)
    ensures r == Feed(init, image) <==>
      exists q: Bits :: |q| == 8 * |image| + 32 && MulAdd(q, r) == ZERO + Dividend(init, image)
  {
    FeedIsRemainder(init, image);
    RemIsRemainder(Dividend(init, image), r);
  }

  function XorImages(a: seq<Byte>, b: seq<Byte>): (c: seq<Byte>)
    requires |a| == |b|
  {
    seq(|a|, i requires 0 <= i < |a| => Xor(a[i], b[i]))
  }

  lemma {:induction false} BitsOfXor(a: seq<Byte>, b: seq<Byte>)
    requires |a| == |b|
    ensures BitsOf(XorImages(a, b)) == Xor(BitsOf(a), BitsOf(b))
    decreases |a|
  {
    if a != [] {
      var n := |a| - 1;
      BitsOfXor(a[..n], b[..n]);
      assert XorImages(a, b)[..n] == XorImages(a[..n], b[..n]);
      XorConcat(BitsOf(a[..n]), a[n], BitsOf(b[..n]), b[n]);
    }
  }

  lemma {:induction false} DividendXor(r: Word, s: Word, a: seq<Byte>, b: seq<Byte>)
    requires |a| == |b|
    ensures Dividend(Xor(r, s), XorImages(a, b)) == Xor(Dividend(r, a), Dividend(s, b))
  {
    BitsOfXor(a, b);
  }

  /** The register is XOR-linear in the initial value and the image together. */
  lemma {:induction false} FeedLinear(r: Word, s: Word, a: seq<Byte>, b: seq<Byte>)
    requires |a| == |b|
    ensures Feed(Xor(r, s), XorImages(a, b)) == Xor(Feed(r, a), Feed(s, b))
  {
    FeedIsRemainder(r, a);
    FeedIsRemainder(s, b);
    FeedIsRemainder(Xor(r, s), XorImages(a, b));
    DividendXor(r, s, a, b);
    RemLinear(Dividend(r, a), Dividend(s, b));
  }

  predicate AllSet(b: Bits) {
    forall i :: 0 <= i < |b| ==> b[i]
  }

  /** Four more digits, all set. */
  lemma {:induction false} LastOnes(n: nat, width: nat)
    requires width >= 4 && AllSet(FromNat(n, width - 4))
    ensures AllSet(FromNat(16 * n + 15, width))
  {
    hide FromNat;
    LastDigit(16 * n + 15, width);
    Fifteen(n);
  }

  lemma {:induction false} Fifteen(n: nat)
    ensures var m := 16 * n + 15;
      m / 16 == n && m / 8 % 2 == 1 && m / 4 % 2 == 1 && m / 2 % 2 == 1 && m % 2 == 1
  {
    var m := 16 * n + 15;
    assert m / 8 == 2 * n + 1 && m / 4 == 4 * n + 3 && m / 2 == 8 * n + 7;
  }

  lemma {:induction false} Ones()
    ensures AllSet(FromNat(0xFFFF_FFFF, 32))
  {
    assert AllSet(FromNat(0, 0));
    hide FromNat, AllSet;
    LastOnes(0, 4);
    LastOnes(0xF, 8);
    LastOnes(0xFF, 12);
    LastOnes(0xFFF, 16);
    LastOnes(0xFFFF, 20);
    LastOnes(0xFFFF_F, 24);
    LastOnes(0xFFFF_FF, 28);
    LastOnes(0xFFFF_FFF, 32);
  }

  /** The value returned, bit by bit: the remainder, complemented at the exponents the generator does
      not have. */
  lemma {:induction false} ChecksumBits(init: Word, image: seq<Byte>)
    ensures forall i :: 0 <= i < 32 ==>
      Checksum(init, image)[i] == (Rem(Dividend(init, image))[i] == POLY[i]) &&
      POLY[i] == (31 - i in {26, 23, 22, 16, 12, 11, 10, 8, 7, 5, 4, 2, 1, 0})
  {
    hide FromNat, Feed, Rem, Dividend;
    FeedIsRemainder(init, image);
    Ones();
    PolyExponents();
  }

  // ---------------------------------------------------------------------------------------
  // What the checksum detects
  // ---------------------------------------------------------------------------------------

  lemma {:induction false} FinishInjective(r: Word, s: Word)
    ensures Finish(r) == Finish(s) <==> r == s
  {
    if Finish(r) == Finish(s) {
      forall i | 0 <= i < 32
        ensures r[i] == s[i]
      {
        assert Finish(r)[i] == Finish(s)[i];
      }
    }
  }

  lemma {:induction false} RemTrailingZeros(p: Bits, n: nat)
    ensures Rem(p + Zeros(n)) == ZERO <==> Rem(p) == ZERO
  {
    PushAllAppend(ZERO, p, Zeros(n));
    ShiftKeepsNonZero(Rem(p), n);
  }

  lemma {:induction false} DividendDifference(init: Word, a: seq<Byte>, b: seq<Byte>)
    requires |a| == |b|
    ensures Xor(Dividend(init, a), Dividend(init, b)) ==
      Zeros(24) + Xor(BitsOf(a), BitsOf(b)) + Zeros(8)
  {
  }

  /** Exact undetected-error condition: two images of one length get the same checksum if and
      only if the generator divides their difference polynomial. */
  lemma {:induction false} SameChecksumIff(init: Word, a: seq<Byte>, b: seq<Byte>)
    requires |a| == |b|
    ensures Checksum(init, a) == Checksum(init, b) <==> Divides(Xor(BitsOf(a), BitsOf(b)))
  {
    var delta := Xor(BitsOf(a), BitsOf(b));
    SameChecksumIffZero(init, a, b);
    RemIsRemainder(delta, ZERO);
  }

  lemma {:induction false} SameChecksumIffZero(init: Word, a: seq<Byte>, b: seq<Byte>)
    requires |a| == |b|
    ensures Checksum(init, a) == Checksum(init, b) <==> Rem(Xor(BitsOf(a), BitsOf(b))) == ZERO
  {
    var delta := Xor(BitsOf(a), BitsOf(b));
    FinishInjective(Feed(init, a), Feed(init, b));
    FeedIsRemainder(init, a);
    FeedIsRemainder(init, b);
    XorZero(Rem(Dividend(init, a)), Rem(Dividend(init, b)));
    RemLinear(Dividend(init, a), Dividend(init, b));
    DividendDifference(init, a, b);
    RemTrailingZeros(Zeros(24) + delta, 8);
    RemLeadingZeros(24, delta);
  }

  /** Burst detection: images that differ, and only inside some 32 consecutive bits (so in
      particular only inside four consecutive bytes), never share a checksum. */
  lemma {:induction false} BurstsDetected(init: Word, a: seq<Byte>, b: seq<Byte>, at: nat)
    requires |a| == |b| && a != b
    requires forall i :: 0 <= i < 8 * |a| && BitsOf(a)[i] != BitsOf(b)[i] ==> at <= i < at + 32
    ensures Checksum(init, a) != Checksum(init, b)
  {
    var delta := Xor(BitsOf(a), BitsOf(b));
    BitsOfInjective(a, b);
    var i :| 0 <= i < |delta| && BitsOf(a)[i] != BitsOf(b)[i];
    assert delta[i];
    var len := if at + 32 <= |delta| then 32 else |delta| - at;
    BurstNotDivisible(delta, at, len);
    SameChecksumIffZero(init, a, b);
  }

  /** The image bit at byte `k`, position `j` from the top. */
  lemma {:induction false} BitPosition(a: seq<Byte>, k: nat, j: nat)
    requires k < |a| && j < 8
    ensures BitsOf(a)[8 * k + j] == a[k][j]
    decreases |a|
  {
    var n := |a| - 1;
    if k < n {
      BitPosition(a[..n], k, j);
    }
  }

  lemma {:induction false} BitsOfInjective(a: seq<Byte>, b: seq<Byte>)
    requires |a| == |b| && a != b
    ensures exists i :: 0 <= i < 8 * |a| && BitsOf(a)[i] != BitsOf(b)[i]
  {
    hide BitsOf;
    var k :| 0 <= k < |a| && a[k] != b[k];
    var j :| 0 <= j < 8 && a[k][j] != b[k][j];
    BitPosition(a, k, j);
    BitPosition(b, k, j);
    assert BitsOf(a)[8 * k + j] != BitsOf(b)[8 * k + j];
  }

  /** Four consecutive bytes: the byte-level reading of `BurstsDetected`. */
  lemma {:induction false} FourByteChangesDetected(init: Word, a: seq<Byte>, b: seq<Byte>, k: nat)
    requires |a| == |b| && a != b
    requires forall i :: 0 <= i < |a| && a[i] != b[i] ==> k <= i < k + 4
    ensures Checksum(init, a) != Checksum(init, b)
  {
    forall i | 0 <= i < 8 * |a| && BitsOf(a)[i] != BitsOf(b)[i]
      ensures 8 * k <= i < 8 * k + 32
    {
      BitPosition(a, i / 8, i % 8);
      BitPosition(b, i / 8, i % 8);
    }
    BurstsDetected(init, a, b, 8 * k);
  }

  /** The documentation names CRC-32/ISO-HDLC, whose checksum of an empty message is zero; this
      routine's is the generator. */
  lemma {:induction false} EmptyImageChecksum()
    ensures Checksum(FromNat(0xFFFF_FFFF, 32), []) == POLY && POLY != ZERO
  {
    hide FromNat;
    XorTwice(FromNat(0xFFFF_FFFF, 32), POLY);
    assert POLY[31];
  }

  lemma {:induction false} XorTwice(a: Bits, b: Bits)
    requires |a| == |b|
    ensures Xor(Xor(a, b), a) == b
  {
  }
}
