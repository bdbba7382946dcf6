/** Five-limb scalars: four limbs of 56 bits and one of 32. */
module Scalars {
  import opened Digits

  const LIMB: nat := 0x100_0000_0000_0000
  const TOP: nat := 0x1_0000_0000

  predicate IsScalar(s: seq<int>) {
    && |s| == 5
    && (forall i :: 0 <= i < 4 ==> 0 <= s[i] < LIMB)
    && 0 <= s[4] < TOP
  }

  function ScalarValue(s: seq<int>): int {
    Value(s, LIMB)
  }

  lemma ScalarRange(s: seq<int>)
    requires IsScalar(s)
    ensures 0 <= ScalarValue(s)
  {
    ValueOfDigits(s, LIMB);
  }
}
