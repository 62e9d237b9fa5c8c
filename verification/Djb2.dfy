/** The DJB2 rolling hash on 32-bit unsigned words, as the EML profiler and the compiler pass
    both use it, and the pass's 8-bit cache tag. */
module Djb2 {
  import opened Prelude

  const SEED: nat := 5381

  /** hash = ((hash << 5) + hash) + x in unsigned 32-bit arithmetic. */
  function Mix(hash: nat, x: nat): (h: nat)
    ensures h < U32
  {
    (hash * 32 % U32 + hash + x) % U32
  }

  function Roll(hash: nat, xs: seq<nat>): nat
    decreases |xs|
  {
    if xs == [] then hash else Roll(Mix(hash, xs[0]), xs[1..])
  }

  function Pow33(n: nat): (p: nat)
    ensures p > 0
  {
    if n == 0 then 1 else 33 * Pow33(n - 1)
  }

  /** The sum of xs[i] * 33^(|xs| - 1 - i). */
  function Weighted(xs: seq<nat>): nat {
    if xs == [] then 0 else xs[0] * Pow33(|xs| - 1) + Weighted(xs[1..])
  }

  lemma {:induction false} Wrap(x: int, k: int)
    ensures (x + k * U32) % U32 == x % U32
  {
  }

  lemma {:induction false} WrapTimes(a: int, b: int, p: nat, w: int)
    requires a % U32 == b % U32
    ensures (a * p + w) % U32 == (b * p + w) % U32
  {
    var k := a / U32 - b / U32;
    assert a == b + k * U32;
    assert a * p == b * p + (k * p) * U32;
    Wrap(b * p + w, k * p);
  }

  lemma {:induction false} MixIsHorner(hash: nat, x: nat)
    ensures Mix(hash, x) == (33 * hash + x) % U32
  {
    Wrap(hash * 32 % U32 + hash + x, hash * 32 / U32);
  }

  /** The loop computes hash * 33^n + sum of x_i * 33^(n-1-i), modulo 2^32. */
  lemma {:induction false} RollIsPolynomial(hash: nat, xs: seq<nat>)
    requires hash < U32
    ensures Roll(hash, xs) == (hash * Pow33(|xs|) + Weighted(xs)) % U32
    decreases |xs|
  {
    hide Mix, Pow33, Weighted;
    Head(xs);
    if xs != [] {
      var p, w := Pow33(|xs| - 1), Weighted(xs[1..]);
      var next := Mix(hash, xs[0]);
      RollIsPolynomial(next, xs[1..]);
      MixIsHorner(hash, xs[0]);
      OneMore(next, hash, xs[0], p, w);
    }
  }

  lemma {:induction false} Head(xs: seq<nat>)
    ensures if xs == [] then Pow33(|xs|) == 1 && Weighted(xs) == 0
            else Pow33(|xs|) == 33 * Pow33(|xs| - 1) && Weighted(xs) == xs[0] * Pow33(|xs| - 1) + Weighted(xs[1..])
  {
  }

  lemma {:induction false} OneMore(next: int, hash: int, x: int, p: nat, w: int)
    requires next == (33 * hash + x) % U32
    ensures (next * p + w) % U32 == (hash * (33 * p) + (x * p + w)) % U32
  {
    WrapTimes(next, 33 * hash + x, p, w);
    Distribute(hash, x, p);
  }

  lemma {:induction false} Distribute(h: int, x: int, p: int)
    ensures (33 * h + x) * p == h * (33 * p) + x * p
  {
  }

  // ---------------------------------------------------------------------------------------
  // The pass's cache tag
  // ---------------------------------------------------------------------------------------

  function EmlHash(opcode: nat, operands: seq<nat>): (tag: nat)
    ensures tag < 256
  {
    Roll(SEED, [opcode] + operands) % 256
  }

  /** getEMLHash. */
  method GetEmlHash(opcode: nat, operands: seq<nat>) returns (tag: nat)
    ensures tag == EmlHash(opcode, operands)
  {
    var hash := Mix(SEED, opcode);
    ghost var all := [opcode] + operands;
    assert all[1..] == operands;
    for k := 0 to |operands|
      invariant Roll(hash, operands[k..]) == Roll(SEED, all)
    {
      assert operands[k..][1..] == operands[k + 1..];
      hash := Mix(hash, operands[k]);
    }
    tag := hash % 256;
  }

  lemma {:induction false} LowByte(v: nat)
    ensures v % U32 % 256 == v % 256
  {
    var q, r := v / U32, v % U32;
    assert v == r + q * 0x100_0000 * 256;
  }

  /** The tag is the polynomial modulo 256. */
  lemma {:induction false} TagIsPolynomial(opcode: nat, operands: seq<nat>)
    ensures var xs := [opcode] + operands;
      EmlHash(opcode, operands) == (5381 * Pow33(|xs|) + Weighted(xs)) % 256
  {
    var xs := [opcode] + operands;
    var v := SEED * Pow33(|xs|) + Weighted(xs);
    RollIsPolynomial(SEED, xs);
    LowByte(v);
  }

  /** Changing one operand moves the polynomial by the change times a power of 33. */
  lemma {:induction false} WeightedUpdate(xs: seq<nat>, i: nat, x: nat)
    requires i < |xs|
    ensures Weighted(xs[i := x]) == Weighted(xs) + (x - xs[i]) * Pow33(|xs| - 1 - i)
    decreases |xs|
  {
    if i == 0 {
      assert xs[0 := x][1..] == xs[1..];
    } else {
      assert xs[i := x][1..] == xs[1..][i - 1 := x];
      WeightedUpdate(xs[1..], i - 1, x);
    }
  }

  /** 33 is a unit modulo 256 (33 * 225 = 29 * 256 + 1). */
  lemma {:induction false} PowerOf33IsUnit(d: int, n: nat)
    ensures d * Pow33(n) % 256 == 0 <==> d % 256 == 0
  {
    if n > 0 {
      var p := Pow33(n - 1);
      PowerOf33IsUnit(d, n - 1);
      assert d * Pow33(n) == 33 * (d * p);
      UnitStep(d * p);
    }
  }

  lemma {:induction false} UnitStep(y: int)
    ensures 33 * y % 256 == 0 <==> y % 256 == 0
  {
    if 33 * y % 256 == 0 {
      var k := 33 * y / 256;
      assert y == 256 * (225 * k - 29 * y);
    }
    if y % 256 == 0 {
      assert 33 * y == 256 * (33 * (y / 256));
    }
  }

  /** The exact sensitivity of the tag: changing one operand changes it if and only if the change
      is not a multiple of 256. */
  lemma {:induction false} TagChangesIff(opcode: nat, operands: seq<nat>, i: nat, x: nat)
    requires i < |operands|
    ensures EmlHash(opcode, operands[i := x]) == EmlHash(opcode, operands) <==>
            (x - operands[i]) % 256 == 0
  {
    var xs := [opcode] + operands;
    var xs' := [opcode] + operands[i := x];
    assert xs' == xs[i + 1 := x];
    TagIsPolynomial(opcode, operands);
    TagIsPolynomial(opcode, operands[i := x]);
    WeightedUpdate(xs, i + 1, x);
    var d := (x - operands[i]) * Pow33(|xs| - 2 - i);
    PowerOf33IsUnit(x - operands[i], |xs| - 2 - i);
    SameResidueIff(SEED * Pow33(|xs|) + Weighted(xs), d);
  }

  lemma {:induction false} SameResidueIff(v: int, d: int)
    ensures (v + d) % 256 == v % 256 <==> d % 256 == 0
  {
  }
}
