/** The flags word of a table slot (tbm/tbm.h): the prefix length above bit 16, the child mark in bit 0. */
module Flags {
  import opened Words

  const INIT_HAS_A_CHILD: nat := 1
  const PREFIX_HI: nat := 16

  function HasChild(flags: nat): bool {
    And(flags, INIT_HAS_A_CHILD) != 0
  }

  function PrefixHi(flags: nat): nat {
    Shr(flags, PREFIX_HI)
  }

  function WithChildMark(flags: nat): nat {
    Or(flags, INIT_HAS_A_CHILD)
  }

  function HiOnly(hi: nat): nat {
    Shl(hi, PREFIX_HI)
  }

  /** The flags of a slot. */
  function FlagsOf(hi: nat, child: bool): nat {
    if child then WithChildMark(HiOnly(hi)) else HiOnly(hi)
  }

  lemma {:induction false} Packing(hi: nat, b: nat)
    requires b < 2
    ensures Or(HiOnly(hi), b) == HiOnly(hi) + b && Shr(HiOnly(hi) + b, PREFIX_HI) == hi
    ensures Bit(HiOnly(hi) + b, 0) <==> b == 1
  {
    hide Or, Shr, Pow2;
    Pow2Thirty2();
    OrHighLow(hi, b, PREFIX_HI);
    ShrHighLow(hi, b, PREFIX_HI);
    assert HiOnly(hi) == 2 * Shl(hi, PREFIX_HI - 1);
  }

  /** Both fields can be read back, and setting the child mark keeps the length. */
  lemma {:induction false} FlagsRoundTrip(hi: nat, child: bool)
    ensures PrefixHi(FlagsOf(hi, child)) == hi && HasChild(FlagsOf(hi, child)) == child
    ensures WithChildMark(FlagsOf(hi, false)) == FlagsOf(hi, true)
    ensures hi < 0x1_0000 ==> FlagsOf(hi, child) < 0x1_0000_0000
    ensures FlagsOf(0, false) == 0 && FlagsOf(0, true) == WithChildMark(0)
  {
    var b := if child then 1 else 0;
    Packing(hi, b);
    OrZeroTwo(HiOnly(hi), b);
    AndPow2(HiOnly(hi) + b, 0);
    Pow2Thirty2();
    if hi < 0x1_0000 { HighLowBound(hi, b, PREFIX_HI, PREFIX_HI); }
    ShlZero(PREFIX_HI);
  }

  lemma {:induction false} OrZeroTwo(x: nat, b: nat)
    ensures b == 0 ==> Or(x, b) == x
  {
    OrZero(x);
  }

  lemma {:induction false} ShlZero(n: nat)
    ensures Shl(0, n) == 0
  {
    if n > 0 { ShlZero(n - 1); }
  }
}
