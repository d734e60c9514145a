/** Integer bit arithmetic of the frontier code: `1 << (n.bit_length() - 1)`, `n & -n`, `n & (n - 1) == 0`.
    Every fact is proved by halving, so no exponent ever has to be reasoned about. */
module Bits {

  predicate IsPow2(n: int)
    decreases n
  {
    n == 1 || (n > 1 && n % 2 == 0 && IsPow2(n / 2))
  }

  function Pow2(k: nat): (r: nat)
    ensures r >= 1
  {
    if k == 0 then 1 else 2 * Pow2(k - 1)
  }

  /** Python's `int.bit_length` on natural numbers. */
  function BitLength(n: nat): nat {
    if n == 0 then 0 else 1 + BitLength(n / 2)
  }

  /** Python's `&` on integers of unbounded two's complement; halving rounds toward minus infinity. */
  function And(x: nat, y: int): nat
    decreases x
  {
    if x == 0 then 0
    else (if x % 2 == 1 && y % 2 == 1 then 1 else 0) + 2 * And(x / 2, y / 2)
  }

  /** The number of set bits. */
  function PopCount(n: nat): nat {
    if n == 0 then 0 else n % 2 + PopCount(n / 2)
  }

  /** The largest power of two that is at most n. */
  function FloorPow2(n: nat): (r: nat)
    requires n > 0
    ensures IsPow2(r) && r <= n < 2 * r
  {
    if n == 1 then 1 else 2 * FloorPow2(n / 2)
  }

  /** The largest power of two that divides n. */
  function LowBit(n: nat): (r: nat)
    requires n > 0
    ensures IsPow2(r) && r <= n
  {
    if n % 2 == 1 then 1 else 2 * LowBit(n / 2)
  }

  /** `c % z == 0` for a power of two z, by halving. */
  predicate Aligned(c: nat, z: nat) {
    z == 1 || (z > 0 && z % 2 == 0 && c % 2 == 0 && Aligned(c / 2, z / 2))
  }

  lemma {:induction false} BitLengthShift(n: nat)
    requires n > 0
    ensures BitLength(n) >= 1
    ensures Pow2(BitLength(n) - 1) == FloorPow2(n)
  {
    if n > 1 {
      BitLengthShift(n / 2);
    }
  }

  lemma {:induction false} BitLengthMonotone(m: nat, n: nat)
    requires m <= n
    ensures BitLength(m) <= BitLength(n)
  {
    if m > 0 {
      BitLengthMonotone(m / 2, n / 2);
    }
  }

  lemma {:induction false} AndComplement(m: int)
    requires m >= 0
    ensures And(m, -m - 1) == 0
  {
    if m > 0 {
      assert (-m - 1) / 2 == -(m / 2) - 1;
      AndComplement(m / 2);
    }
  }

  /** `n & -n` isolates the lowest set bit. */
  lemma {:induction false} AndNegateIsLowBit(n: int)
    requires n > 0
    ensures And(n, -n) == LowBit(n)
  {
    if n % 2 == 1 {
      assert (-n) / 2 == -(n / 2) - 1;
      AndComplement(n / 2);
    } else {
      assert (-n) / 2 == -(n / 2);
      AndNegateIsLowBit(n / 2);
    }
  }

  lemma {:induction false} AndSelf(n: nat)
    ensures And(n, n) == n
  {
    if n > 0 {
      AndSelf(n / 2);
    }
  }

  /** `n & (n - 1) == 0` decides powers of two among the positive integers. */
  lemma {:induction false} AndPredecessorIsPow2(n: int)
    requires n > 0
    ensures And(n, n - 1) == 0 <==> IsPow2(n)
  {
    if n % 2 == 1 {
      assert (n - 1) / 2 == n / 2;
      AndSelf(n / 2);
    } else {
      assert (n - 1) / 2 == n / 2 - 1;
      AndPredecessorIsPow2(n / 2);
    }
  }

  lemma MulAtLeast(b: nat, k: int)
    requires k >= 1
    ensures b * k >= b
  {
  }

  lemma DivModUnique(n: nat, b: nat, q: nat, r: nat)
    requires b > 0 && n == b * q + r && r < b
    ensures n % b == r && n / b == q
  {
    var q', r' := n / b, n % b;
    var d := q - q';
    assert b * d == b * q - b * q' == r' - r;
    if d > 0 {
      MulAtLeast(b, d);
      assert false;
    } else if d < 0 {
      assert b * -d == r - r';
      MulAtLeast(b, -d);
      assert false;
    }
  }

  lemma EvenMod(c: nat, h: nat)
    requires h > 0 && c % 2 == 0
    ensures c % (2 * h) == 2 * ((c / 2) % h)
  {
    var d := c / 2;
    var q, r := d / h, d % h;
    assert d == h * q + r;
    assert c == (2 * h) * q + 2 * r;
    DivModUnique(c, 2 * h, q, 2 * r);
  }

  lemma EvenMultiple(c: nat, h: nat)
    requires h > 0 && c % (2 * h) == 0
    ensures c % 2 == 0
  {
    var q := c / (2 * h);
    assert c == (2 * h) * q == 2 * (h * q);
  }

  /** The recursive alignment test is the `%` test of the code. */
  lemma {:induction false} AlignedIsMod(c: nat, z: nat)
    requires IsPow2(z)
    ensures Aligned(c, z) <==> c % z == 0
  {
    if z > 1 {
      if c % 2 == 0 {
        EvenMod(c, z / 2);
        AlignedIsMod(c / 2, z / 2);
      } else if c % z == 0 {
        EvenMultiple(c, z / 2);
      }
    }
  }

  lemma {:induction false} AlignedZero(z: nat)
    requires IsPow2(z)
    ensures Aligned(0, z)
  {
    if z > 1 {
      AlignedZero(z / 2);
    }
  }

  lemma {:induction false} DoublePow2(z: nat)
    requires IsPow2(z)
    ensures IsPow2(2 * z)
  {
  }

  /** Alignment passes to smaller powers of two. */
  lemma {:induction false} AlignedSmaller(c: nat, big: nat, z: nat)
    requires IsPow2(big) && IsPow2(z) && z <= big && Aligned(c, big)
    ensures Aligned(c, z)
  {
    if z > 1 {
      AlignedSmaller(c / 2, big / 2, z / 2);
    }
  }

  lemma {:induction false} LowBitAligned(c: nat)
    requires c > 0
    ensures Aligned(c, LowBit(c))
    ensures Aligned(c - LowBit(c), 2 * LowBit(c))
  {
    if c % 2 == 0 {
      LowBitAligned(c / 2);
      assert (c - LowBit(c)) / 2 == c / 2 - LowBit(c / 2);
    }
  }

  /** Any aligned power of two is at most the lowest set bit. */
  lemma {:induction false} AlignedBelowLowBit(c: nat, z: nat)
    requires c > 0 && IsPow2(z) && Aligned(c, z)
    ensures z <= LowBit(c)
  {
    if z > 1 {
      AlignedBelowLowBit(c / 2, z / 2);
    }
  }

  /** Adding a power of two below the lowest set bit makes it the new lowest set bit. */
  lemma {:induction false} LowBitAdd(c: nat, z: nat)
    requires IsPow2(z) && (c == 0 || z < LowBit(c))
    ensures LowBit(c + z) == z
  {
    if z > 1 {
      if c > 0 {
        assert c % 2 == 0;
      }
      assert (c + z) / 2 == c / 2 + z / 2;
      LowBitAdd(c / 2, z / 2);
    }
  }

  /** Below an aligned base only the offset decides the lowest set bit. */
  lemma {:induction false} LowBitOffset(base: nat, y: nat, z: nat)
    requires IsPow2(z) && Aligned(base, z) && 0 < y < z
    ensures LowBit(base + y) == LowBit(y)
  {
    if y % 2 == 0 {
      assert (base + y) / 2 == base / 2 + y / 2;
      LowBitOffset(base / 2, y / 2, z / 2);
    }
  }

  /** The place value of the highest bit in which m and n differ. */
  function HighestDifference(m: nat, n: nat): (r: nat)
    requires m < n
    ensures IsPow2(r) && r > 0
  {
    if m / 2 == n / 2 then 1 else 2 * HighestDifference(m / 2, n / 2)
  }

  /** Above that bit m and n agree, m has a zero there and n a one. */
  lemma {:induction false} DifferenceBase(m: nat, n: nat) returns (base: nat)
    requires m < n
    ensures var bit := HighestDifference(m, n);
            IsPow2(2 * bit) && Aligned(base, 2 * bit) && base <= m < base + bit <= n < base + 2 * bit
  {
    if m / 2 == n / 2 {
      base := m;
    } else {
      var half := DifferenceBase(m / 2, n / 2);
      base := 2 * half;
      DoublePow2(2 * HighestDifference(m / 2, n / 2));
    }
  }

  lemma DifferenceRemainders(m: nat, n: nat, base: nat)
    requires m < n && IsPow2(2 * HighestDifference(m, n)) && Aligned(base, 2 * HighestDifference(m, n))
    requires base <= m < base + HighestDifference(m, n) <= n < base + 2 * HighestDifference(m, n)
    ensures m % HighestDifference(m, n) == m - base
    ensures n % HighestDifference(m, n) == n - base - HighestDifference(m, n)
  {
    hide HighestDifference, IsPow2, Aligned;
    var bit := HighestDifference(m, n);
    AlignedSmaller(base, 2 * bit, bit);
    AlignedIsMod(base, bit);
    RemainderFromBase(base, bit, m - base);
    NextMultiple(base, bit);
    RemainderFromBase(base + bit, bit, n - base - bit);
  }

  /** n with the bits below `bit` cleared. */
  function ClearBelow(n: nat, bit: nat): (r: nat)
    requires bit > 0
    ensures r == n - n % bit
  {
    (n / bit) * bit
  }

  lemma RemainderFromBase(base: nat, bit: nat, y: nat)
    requires bit > 0 && base % bit == 0 && y < bit
    ensures (base + y) % bit == y
  {
    DivModUnique(base + y, bit, base / bit, y);
  }

  lemma NextMultiple(base: nat, bit: nat)
    requires bit > 0 && base % bit == 0
    ensures (base + bit) % bit == 0
  {
    var q := base / bit;
    assert base + bit == bit * (q + 1);
    DivModUnique(base + bit, bit, q + 1, 0);
  }

  /** Adding the lowest set bit carries: the new lowest set bit is at least twice as large. */
  lemma {:induction false} LowBitCarry(c: nat)
    requires c > 0
    ensures LowBit(c + LowBit(c)) >= 2 * LowBit(c)
  {
    if c % 2 == 0 {
      LowBitCarry(c / 2);
      assert (c + LowBit(c)) / 2 == c / 2 + LowBit(c / 2);
    }
  }

  /** Removing the highest set bit keeps the lowest one, and conversely. */
  lemma {:induction false} HighLow(n: nat)
    requires n > 0 && n != FloorPow2(n)
    ensures LowBit(n - FloorPow2(n)) == LowBit(n)
    ensures n != LowBit(n) && FloorPow2(n - LowBit(n)) == FloorPow2(n)
    ensures LowBit(n) <= n - FloorPow2(n)
  {
    if n % 2 == 0 {
      HighLow(n / 2);
      assert (n - FloorPow2(n)) / 2 == n / 2 - FloorPow2(n / 2);
      assert (n - LowBit(n)) / 2 == n / 2 - LowBit(n / 2);
    } else {
      assert (n - 1) / 2 == n / 2;
    }
  }

  lemma {:induction false} Pow2Floor(n: nat)
    requires IsPow2(n)
    ensures FloorPow2(n) == n && LowBit(n) == n
  {
    if n > 1 {
      Pow2Floor(n / 2);
    }
  }

  /** Two powers of two, one not below the other, differ by at least a factor of two. */
  lemma {:induction false} Pow2Gap(a: nat, b: nat)
    requires IsPow2(a) && IsPow2(b) && a < b
    ensures 2 * a <= b && Aligned(b, 2 * a)
  {
    if a > 1 {
      Pow2Gap(a / 2, b / 2);
    } else {
      assert Aligned(b / 2, 1);
    }
  }

  lemma {:induction false} LowBitRemoval(n: nat)
    requires n > 0
    ensures PopCount(n) == PopCount(n - LowBit(n)) + 1
  {
    if n % 2 == 0 {
      LowBitRemoval(n / 2);
      assert (n - LowBit(n)) / 2 == n / 2 - LowBit(n / 2);
    } else {
      assert (n - 1) / 2 == n / 2;
    }
  }
}
