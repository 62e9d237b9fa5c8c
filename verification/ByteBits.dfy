/** Bytes as numbers and as bit vectors. */
module ByteBits {

  /** Bit `k` of a number. */
  predicate Bit(n: nat, k: nat)
    decreases k
  {
    if k == 0 then n % 2 == 1 else Bit(n / 2, k - 1)
  }

  function Power2(n: nat): (p: nat)
    ensures p > 0
  {
    if n == 0 then 1 else 2 * Power2(n - 1)
  }

  /** A number of `width` bits is determined by them. */
  lemma {:induction false} BitsDetermine(m: nat, n: nat, width: nat)
    requires m < Power2(width) && n < Power2(width)
    requires forall k :: 0 <= k < width ==> Bit(m, k) == Bit(n, k)
    ensures m == n
  {
    if width > 0 {
      assert Bit(m, 0) == Bit(n, 0);
      forall k | 0 <= k < width - 1
        ensures Bit(m / 2, k) == Bit(n / 2, k)
      {
        assert Bit(m, k + 1) == Bit(n, k + 1);
      }
      BitsDetermine(m / 2, n / 2, width - 1);
    }
  }

  /** The low `width` bits survive a remainder by 2^width. */
  lemma {:induction false} BitOfRemainder(n: nat, width: nat, k: nat)
    requires k < width
    ensures Bit(n % Power2(width), k) == Bit(n, k)
    decreases k
  {
    HalfOfRemainder(n, Power2(width - 1));
    if k > 0 {
      BitOfRemainder(n / 2, width - 1, k - 1);
    }
  }

  lemma {:induction false} HalfOfRemainder(n: nat, p: nat)
    requires p > 0
    ensures n % (2 * p) / 2 == n / 2 % p && n % (2 * p) % 2 == n % 2
  {
    var q, r := n / 2 / p, n / 2 % p;
    assert n / 2 == p * q + r;
    assert n == (2 * p) * q + (2 * r + n % 2);
    RemainderIs(n, 2 * p, q, 2 * r + n % 2);
  }

  lemma {:induction false} RemainderIs(n: nat, m: nat, q: nat, r: nat)
    requires r < m && n == m * q + r
    ensures n % m == r
  {
    var d := n / m - q;
    assert n == m * (n / m) + n % m;
    assert m * d == r - n % m;
    Multiple(m, d);
  }

  lemma {:induction false} NextRemainder(n: nat, m: nat)
    requires m > 0
    ensures (n + 1) % m == if n % m == m - 1 then 0 else n % m + 1
  {
    var q, r := n / m, n % m;
    assert n == m * q + r;
    if r == m - 1 {
      assert n + 1 == m * (q + 1);
      RemainderIs(n + 1, m, q + 1, 0);
    } else {
      RemainderIs(n + 1, m, q, r + 1);
    }
  }

  lemma {:induction false} Multiple(m: int, d: int)
    requires m > 0
    ensures d >= 1 ==> m * d >= m
    ensures d <= -1 ==> m * d <= -m
  {
  }

  lemma {:induction false} LowByte(low: nat, high: nat)
    requires low < 0x100
    ensures (low + high * 0x100) % 0x100 == low
  {
  }

  lemma {:induction false} Quotients(w: nat, a: nat, b: nat, c: nat, d: nat)
    requires a < 0x100 && b < 0x100 && c < 0x100
    requires w == a + b * 0x100 + c * 0x1_0000 + d * 0x100_0000
    ensures w / 0x100 == b + c * 0x100 + d * 0x1_0000
    ensures w / 0x1_0000 == c + d * 0x100
    ensures w / 0x100_0000 == d
  {
  }

  /** Bitwise exclusive or. */
  function Xor(a: nat, b: nat): (c: nat)
    decreases a, b
  {
    if a == 0 && b == 0 then 0 else 2 * Xor(a / 2, b / 2) + (a % 2 + b % 2) % 2
  }

  lemma {:induction false} XorBit(a: nat, b: nat, k: nat)
    ensures Bit(Xor(a, b), k) <==> Bit(a, k) != Bit(b, k)
    decreases k
  {
    XorHalves(a, b);
    if k > 0 {
      XorBit(a / 2, b / 2, k - 1);
    }
  }

  lemma {:induction false} XorHalves(a: nat, b: nat)
    ensures Xor(a, b) / 2 == Xor(a / 2, b / 2) && Xor(a, b) % 2 == (a % 2 + b % 2) % 2
  {
  }

  lemma {:induction false} XorBounded(a: nat, b: nat, width: nat)
    requires a < Power2(width) && b < Power2(width)
    ensures Xor(a, b) < Power2(width)
  {
    if width > 0 {
      XorBounded(a / 2, b / 2, width - 1);
    }
  }

  lemma {:induction false} XorSelf(a: nat)
    ensures Xor(a, a) == 0
  {
    if a > 0 {
      XorSelf(a / 2);
    }
  }

  lemma {:induction false} XorZero(a: nat)
    ensures Xor(a, 0) == a && Xor(0, a) == a
  {
    if a > 0 {
      XorZero(a / 2);
    }
  }

  /** XOR of a list of numbers. */
  function XorAll(bytes: seq<nat>): nat {
    if bytes == [] then 0 else Xor(XorAll(bytes[..|bytes| - 1]), bytes[|bytes| - 1])
  }

  lemma {:induction false} XorAllSnoc(bytes: seq<nat>, x: nat)
    ensures XorAll(bytes + [x]) == Xor(XorAll(bytes), x)
  {
    assert (bytes + [x])[..|bytes|] == bytes;
  }

  lemma {:induction false} NoXor(bytes: seq<nat>)
    requires forall i :: 0 <= i < |bytes| ==> bytes[i] == 0
    ensures XorAll(bytes) == 0
  {
    if bytes != [] {
      NoXor(bytes[..|bytes| - 1]);
    }
  }

  /** How many of the numbers have bit `k` set. */
  function SetBits(bytes: seq<nat>, k: nat): nat {
    if bytes == [] then 0 else SetBits(bytes[..|bytes| - 1], k) + if Bit(bytes[|bytes| - 1], k) then 1 else 0
  }

  predicate Bytes(bytes: seq<nat>) {
    forall i :: 0 <= i < |bytes| ==> bytes[i] < 0x100
  }

  /** Bit `k` of their XOR says whether an odd number of them has it. */
  lemma {:induction false} XorAllBit(bytes: seq<nat>, k: nat)
    ensures Bit(XorAll(bytes), k) <==> SetBits(bytes, k) % 2 == 1
  {
    hide Bit, Xor;
    if bytes == [] {
      NoBits(k);
    } else {
      XorAllBit(bytes[..|bytes| - 1], k);
      XorBit(XorAll(bytes[..|bytes| - 1]), bytes[|bytes| - 1], k);
    }
  }

  lemma {:induction false} SetBitsAppend(a: seq<nat>, b: seq<nat>, k: nat)
    ensures SetBits(a + b, k) == SetBits(a, k) + SetBits(b, k)
    decreases |b|
  {
    if b == [] {
      assert a + b == a;
    } else {
      assert (a + b)[..|a + b| - 1] == a + b[..|b| - 1];
      SetBitsAppend(a, b[..|b| - 1], k);
    }
  }

  lemma {:induction false} NoBits(k: nat)
    ensures !Bit(0, k)
    decreases k
  {
    if k > 0 {
      NoBits(k - 1);
    }
  }

  lemma {:induction false} EightBits()
    ensures Power2(7) == 0x80 && Power2(8) == 0x100
  {
    assert Power2(4) == 16;
  }

  lemma {:induction false} XorAllBounded(bytes: seq<nat>)
    requires Bytes(bytes)
    ensures XorAll(bytes) < 0x100
  {
    hide Xor;
    if bytes != [] {
      XorAllBounded(bytes[..|bytes| - 1]);
      EightBits();
      XorBounded(XorAll(bytes[..|bytes| - 1]), bytes[|bytes| - 1], 8);
    }
  }

  /** In position `k` both lists have an even or both an odd number of ones. */
  predicate SameParity(a: seq<nat>, b: seq<nat>, k: nat) {
    SetBits(a, k) % 2 == SetBits(b, k) % 2
  }

  /** XORs agree modulo 2^width exactly when the parities of their low positions do. */
  lemma {:induction false} XorsAgreeIff(a: seq<nat>, b: seq<nat>, width: nat, size: nat)
    requires size == Power2(width)
    ensures XorAll(a) % size == XorAll(b) % size <==> forall k :: 0 <= k < width ==> SameParity(a, b, k)
  {
    hide Bit, SetBits, XorAll, Power2;
    var m, n := XorAll(a) % size, XorAll(b) % size;
    forall k | 0 <= k < width
      ensures SameParity(a, b, k) <==> Bit(m, k) == Bit(n, k)
    {
      XorAllBit(a, k);
      XorAllBit(b, k);
      BitOfRemainder(XorAll(a), width, k);
      BitOfRemainder(XorAll(b), width, k);
    }
    if forall k :: 0 <= k < width ==> SameParity(a, b, k) {
      BitsDetermine(m, n, width);
    }
  }

  /** For bytes, XORs are equal exactly when all eight parities are. */
  lemma {:induction false} XorsEqualIff(a: seq<nat>, b: seq<nat>)
    requires Bytes(a) && Bytes(b)
    ensures XorAll(a) == XorAll(b) <==> forall k :: 0 <= k < 8 ==> SameParity(a, b, k)
    ensures XorAll(a) % 0x80 == XorAll(b) % 0x80 <==> forall k :: 0 <= k < 7 ==> SameParity(a, b, k)
  {
    hide XorAll, SameParity, Power2, Bytes;
    EightBits();
    XorAllBounded(a);
    XorAllBounded(b);
    XorsAgreeIff(a, b, 8, 0x100);
    XorsAgreeIff(a, b, 7, 0x80);
  }

  /** The lists differ at `j` and nowhere else. */
  predicate DifferAt(a: seq<nat>, b: seq<nat>, j: nat) {
    |a| == |b| && j < |a| && forall i :: 0 <= i < |a| ==> (a[i] != b[i] <==> i == j)
  }

  lemma {:induction false} SetBitsDiffer(a: seq<nat>, b: seq<nat>, j: nat, k: nat, n: nat)
    requires DifferAt(a, b, j) && n <= |a| && Bit(a[j], k) != Bit(b[j], k)
    ensures SetBits(a[..n], k) % 2 == SetBits(b[..n], k) % 2 <==> n <= j
  {
    hide Bit;
    if n > 0 {
      assert a[..n][..n - 1] == a[..n - 1] && b[..n][..n - 1] == b[..n - 1];
      SetBitsDiffer(a, b, j, k, n - 1);
    }
  }

  /** Changing one byte changes the XOR. */
  lemma {:induction false} OneByteSeparates(a: seq<nat>, b: seq<nat>, j: nat)
    requires Bytes(a) && Bytes(b) && DifferAt(a, b, j)
    ensures XorAll(a) != XorAll(b)
  {
    hide XorAll, Bit, SetBits;
    XorsEqualIff(a, b);
    EightBits();
    if forall k :: 0 <= k < 8 ==> Bit(a[j], k) == Bit(b[j], k) {
      BitsDetermine(a[j], b[j], 8);
    }
    var k :| 0 <= k < 8 && Bit(a[j], k) != Bit(b[j], k);
    assert a[..|a|] == a && b[..|b|] == b;
    SetBitsDiffer(a, b, j, k, |a|);
    assert !SameParity(a, b, k);
  }

  // --- the bytes of a word ------------------------------------------------------------------

  /** The four bytes of a 32-bit number, lowest first. */
  function BytesOf(w: nat): (b: seq<nat>)
    ensures |b| == 4 && Bytes(b)
  {
    [w % 0x100, w / 0x100 % 0x100, w / 0x1_0000 % 0x100, w / 0x100_0000 % 0x100]
  }

  function NumberOf(b: seq<nat>): nat
    requires |b| == 4
  {
    b[0] + 0x100 * b[1] + 0x1_0000 * b[2] + 0x100_0000 * b[3]
  }

  lemma {:induction false} ByteSum(w: nat)
    ensures w == w % 0x100 + 0x100 * (w / 0x100 % 0x100) + 0x1_0000 * (w / 0x1_0000 % 0x100) +
                 0x100_0000 * (w / 0x100_0000)
  {
    assert w / 0x1_0000 == w / 0x100 / 0x100 && w / 0x100_0000 == w / 0x1_0000 / 0x100;
  }

  /** They make up the number, and no other four bytes do. */
  lemma {:induction false} BytesOfIff(w: nat, b: seq<nat>)
    requires w < 0x1_0000_0000 && |b| == 4 && Bytes(b)
    ensures b == BytesOf(w) <==> w == NumberOf(b)
  {
    ByteSum(w);
    assert w / 0x100_0000 % 0x100 == w / 0x100_0000;
    if w == NumberOf(b) {
      Quotients(w, b[0], b[1], b[2], b[3]);
      LowByte(b[0], b[1] + b[2] * 0x100 + b[3] * 0x1_0000);
      LowByte(b[1], b[2] + b[3] * 0x100);
      LowByte(b[2], b[3]);
    }
  }
}
