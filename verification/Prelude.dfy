/** What several components share. */
module Prelude {

  datatype Option<+T> = None | Some(value: T)

  /** One more than the largest unsigned 32-bit number. */
  const U32: nat := 0x1_0000_0000

  /** An unsigned 32-bit number read as two's complement. */
  function Signed(a: nat): int {
    if a < 0x8000_0000 then a else a - U32
  }

  /** That is the representative modulo 2^32 that fits, and there is no other. */
  lemma {:induction false} SignedIsRepresentative(a: nat, v: int)
    requires a < U32
    ensures v == Signed(a) <==> -0x8000_0000 <= v < 0x8000_0000 && (v - a) % U32 == 0
  {
  }
}
