/** Bit arithmetic on natural numbers, as the proof verifiers use it on unsigned 64-bit words. */
module Bits {

  function Pow2(k: nat): (p: nat)
    ensures p > 0
  {
    if k == 0 then 1 else 2 * Pow2(k - 1)
  }

  /** `x >> k`. */
  function Shr(x: nat, k: nat): nat {
    if k == 0 then x else Shr(x / 2, k - 1)
  }

  /** `a ^ b`, bit by bit from the low end. */
  function Xor(a: nat, b: nat): nat
    decreases a + b
  {
    if a == 0 && b == 0 then 0
    else 2 * Xor(a / 2, b / 2) + (if a % 2 == b % 2 then 0 else 1)
  }

  /** The word width minus `leading_zeros`. */
  function BitLength(x: nat): nat {
    if x == 0 then 0 else 1 + BitLength(x / 2)
  }

  /** `count_ones`. */
  function PopCount(x: nat): nat {
    if x == 0 then 0 else x % 2 + PopCount(x / 2)
  }

  function TrailingZeros(x: nat): nat
    requires x > 0
  {
    if x % 2 == 1 then 0 else 1 + TrailingZeros(x / 2)
  }

  predicate IsPow2(x: nat) {
    x > 0 && (x == 1 || (x % 2 == 0 && IsPow2(x / 2)))
  }

  lemma DoubleProduct(q: nat, p: nat)
    ensures q * (2 * p) == 2 * (q * p)
  {
  }

  /** Shifting right by `k` divides by two to the `k`. */
  lemma {:induction false} ShrDivides(x: nat, k: nat)
    ensures Shr(x, k) * Pow2(k) <= x < (Shr(x, k) + 1) * Pow2(k)
  {
    if k > 0 {
      ShrDivides(x / 2, k - 1);
      DoubleProduct(Shr(x, k), Pow2(k - 1));
      DoubleProduct(Shr(x, k) + 1, Pow2(k - 1));
    }
  }

  /** The positions of the bits that are one. */
  function SetBits(x: nat): set<nat> {
    set k: nat | k < BitLength(x) && Shr(x, k) % 2 == 1
  }

  /** No bit at or above the bit length is one. */
  lemma {:induction false} SetBitsAreLow(x: nat, k: nat)
    ensures k in SetBits(x) <==> Shr(x, k) % 2 == 1
  {
    if x > 0 && k > 0 {
      SetBitsAreLow(x / 2, k - 1);
    } else {
      ShrOfZero(k);
    }
  }

  lemma {:induction false} ShrOfZero(k: nat)
    ensures Shr(0, k) == 0
  {
    if k > 0 {
      ShrOfZero(k - 1);
    }
  }

  /** Positions moved up by one. */
  function Raised(positions: set<nat>): set<nat> {
    set k | k in positions :: k + 1
  }

  lemma {:induction false} RaisedHolds(positions: set<nat>, k: nat)
    ensures k in Raised(positions) <==> k > 0 && k - 1 in positions
  {
    assert k > 0 && k - 1 in positions ==> k - 1 + 1 in Raised(positions);
  }

  lemma {:induction false} RaisedSize(positions: set<nat>)
    ensures |Raised(positions)| == |positions|
  {
    if positions != {} {
      var p :| p in positions;
      RaisedSize(positions - {p});
      forall k: nat
        ensures k in Raised(positions) <==> k in Raised(positions - {p}) || k == p + 1
      {
        RaisedHolds(positions, k);
        RaisedHolds(positions - {p}, k);
      }
      RaisedHolds(positions - {p}, p + 1);
      assert Raised(positions) == Raised(positions - {p}) + {p + 1};
    }
  }

  lemma {:induction false} SetBitsOfHalf(x: nat)
    requires x > 0
    ensures SetBits(x) == Raised(SetBits(x / 2)) + if x % 2 == 1 then {0} else {}
  {
    forall k: nat
      ensures k in SetBits(x) <==> k in Raised(SetBits(x / 2)) || (x % 2 == 1 && k == 0)
    {
      RaisedHolds(SetBits(x / 2), k);
    }
  }

  /** `count_ones` is the number of bits that are one. */
  lemma {:induction false} PopCountCounts(x: nat)
    ensures PopCount(x) == |SetBits(x)|
    ensures forall k: nat :: k in SetBits(x) <==> Shr(x, k) % 2 == 1
  {
    forall k: nat
      ensures k in SetBits(x) <==> Shr(x, k) % 2 == 1
    {
      SetBitsAreLow(x, k);
    }
    if x > 0 {
      PopCountCounts(x / 2);
      SetBitsOfHalf(x);
      RaisedSize(SetBits(x / 2));
      RaisedHolds(SetBits(x / 2), 0);
    }
  }

  /** A bit of the exclusive or is one exactly where the operands differ. */
  lemma {:induction false} XorDiffers(a: nat, b: nat, k: nat)
    ensures Shr(Xor(a, b), k) % 2 == 1 <==> Shr(a, k) % 2 != Shr(b, k) % 2
    decreases k
  {
    if a > 0 || b > 0 {
      assert Xor(a, b) / 2 == Xor(a / 2, b / 2);
      if k > 0 {
        XorDiffers(a / 2, b / 2, k - 1);
      }
    } else {
      ShrOfZero(k);
    }
  }

  /** The bit length is the number of bits needed, no more and no fewer. */
  lemma {:induction false} BitLengthBounds(x: nat)
    ensures x < Pow2(BitLength(x))
    ensures x > 0 ==> Pow2(BitLength(x) - 1) <= x
  {
    if x > 0 {
      BitLengthBounds(x / 2);
    }
  }

  /** `x` is its lowest set bit times an odd number, and the low bits of `x - 1` are then all ones. */
  lemma {:induction false} TrailingZerosFactor(x: nat)
    requires x > 0
    ensures var s := TrailingZeros(x);
            Shr(x, s) % 2 == 1 && x == Shr(x, s) * Pow2(s) && Shr(x - 1, s) == Shr(x, s) - 1
  {
    if x % 2 == 0 {
      TrailingZerosFactor(x / 2);
      var s := TrailingZeros(x / 2);
      DoubleProduct(Shr(x / 2, s), Pow2(s));
      assert (x - 1) / 2 == x / 2 - 1;
    }
  }

  /** `x` equals the bit at its trailing-zero position exactly when nothing is left above it. */
  lemma {:induction false} LowestBitOnly(x: nat)
    requires x > 0
    ensures x == Pow2(TrailingZeros(x)) <==> Shr(x, TrailingZeros(x)) == 1
  {
    if x % 2 == 0 {
      LowestBitOnly(x / 2);
    }
  }

  lemma {:induction false} XorZero(a: nat, b: nat)
    ensures Xor(a, b) == 0 <==> a == b
    decreases a + b
  {
    if a > 0 || b > 0 {
      XorZero(a / 2, b / 2);
    }
  }

  lemma {:induction false} BitLengthMonotone(x: nat, y: nat)
    requires x <= y
    ensures BitLength(x) <= BitLength(y)
  {
    if x > 0 {
      BitLengthMonotone(x / 2, y / 2);
    }
  }

  /** Two shifts add up. */
  lemma {:induction false} ShrCompose(x: nat, a: nat, b: nat)
    ensures Shr(Shr(x, a), b) == Shr(x, a + b)
  {
    if a > 0 {
      ShrCompose(x / 2, a - 1, b);
    }
  }

  lemma ShrNext(x: nat, k: nat)
    ensures Shr(x, k + 1) == Shr(x, k) / 2
  {
    ShrCompose(x, k, 1);
    assert Shr(Shr(x, k), 1) == Shr(Shr(x, k) / 2, 0);
  }

  lemma {:induction false} BitLengthAtMost(x: nat, k: nat)
    ensures BitLength(x) <= k <==> x < Pow2(k)
  {
    if x > 0 && k > 0 {
      BitLengthAtMost(x / 2, k - 1);
    }
  }

  /** The exclusive or is as long as the longer operand, or shorter than both when they are equally long. */
  lemma {:induction false} XorLength(a: nat, b: nat)
    ensures BitLength(a) < BitLength(b) ==> BitLength(Xor(a, b)) == BitLength(b)
    ensures 0 < BitLength(a) == BitLength(b) ==> BitLength(Xor(a, b)) < BitLength(a)
  {
    if a > 0 {
      XorLength(a / 2, b / 2);
    } else {
      XorWithZero(b);
    }
  }

  lemma {:induction false} XorWithZero(b: nat)
    ensures Xor(0, b) == b
  {
    if b > 0 {
      XorWithZero(b / 2);
    }
  }

  lemma {:induction false} Pow2Adds(a: nat, b: nat)
    ensures Pow2(a + b) == Pow2(a) * Pow2(b)
  {
    if a > 0 {
      Pow2Adds(a - 1, b);
      assert Pow2(a) * Pow2(b) == 2 * (Pow2(a - 1) * Pow2(b));
    }
  }

  lemma Pow2Of63()
    ensures Pow2(63) == 0x8000_0000_0000_0000
  {
    assert Pow2(16) == 0x1_0000 && Pow2(15) == 0x8000;
    Pow2Adds(16, 16);
    Pow2Adds(32, 16);
    Pow2Adds(48, 15);
  }
}
