/** Bitwise operators on words of a given number of bits, bit by bit. */
module Bits {
  function Power2(n: nat): (r: nat)
    ensures r >= 1
  {
    if n == 0 then 1 else 2 * Power2(n - 1)
  }

  /** `a ^ b` */
  function Xor(a: nat, b: nat, width: nat): nat {
    if width == 0 then 0 else 2 * Xor(a / 2, b / 2, width - 1) + if a % 2 == b % 2 then 0 else 1
  }

  /** `a & b` */
  function And(a: nat, b: nat, width: nat): nat {
    if width == 0 then 0 else 2 * And(a / 2, b / 2, width - 1) + if a % 2 == 1 && b % 2 == 1 then 1 else 0
  }

  /** `^` and `&` with the top bit alone */
  lemma {:induction false} TopBit(x: nat, width: nat)
    requires 0 < width && x < Power2(width)
    ensures var top := Power2(width - 1);
            && Xor(x, top, width) == (if x >= top then x - top else x + top)
            && (And(x, top, width) != 0 <==> x >= top)
  {
    if width > 1 {
      TopBit(x / 2, width - 1);
      assert Power2(width - 1) / 2 == Power2(width - 2) && Power2(width - 1) % 2 == 0;
    }
  }

  /** `^` with all ones is the complement. */
  lemma {:induction false} AllOnes(x: nat, width: nat)
    requires x < Power2(width)
    ensures Xor(x, Power2(width) - 1, width) == Power2(width) - 1 - x
  {
    if width > 0 {
      AllOnes(x / 2, width - 1);
      assert (Power2(width) - 1) / 2 == Power2(width - 1) - 1 && (Power2(width) - 1) % 2 == 1;
    }
  }
}
