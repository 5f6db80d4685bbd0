/**
  Unsigned 64-bit words and the C operators on them. Shifts follow the arithmetic
  definition of section 6.5.7 of ISO C11; `&` and `|` act digit by digit on the
  binary notation. The lemmas give the arithmetic meaning of every mask that the
  page-table code applies.
*/
module Words {
  const TWO64: nat := 0x1_0000_0000_0000_0000

  type Word = x: int | 0 <= x < TWO64

  function Pow2(k: nat): (p: nat)
    ensures p >= 1
  {
    if k == 0 then 1 else 2 * Pow2(k - 1)
  }

  /** `x << k` */
  function Shl(x: Word, k: nat): Word {
    (x * Pow2(k)) % TWO64
  }

  /** `x >> k` */
  function Shr(x: Word, k: nat): Word {
    DivShrinks(x, Pow2(k));
    x / Pow2(k)
  }

  /** `x - y` */
  function Sub(x: Word, y: Word): Word {
    (x - y) % TWO64
  }

  /** `x & y` */
  function And(x: nat, y: nat): (z: nat)
    ensures z <= x && z <= y
  {
    if x == 0 || y == 0 then 0
    else 2 * And(x / 2, y / 2) + (if x % 2 == 1 && y % 2 == 1 then 1 else 0)
  }

  /** `x | y` */
  function Or(x: nat, y: nat): nat {
    if x == 0 then y
    else if y == 0 then x
    else 2 * Or(x / 2, y / 2) + (if x % 2 == 1 || y % 2 == 1 then 1 else 0)
  }

  lemma DivShrinks(x: nat, d: nat)
    requires d >= 1
    ensures 0 <= x / d <= x
  {
    assert x == d * (x / d) + x % d;
  }

  /** The lowest k binary digits of x, as a number. */
  function Low(x: nat, k: nat): (r: nat)
    ensures r <= x
  {
    if k == 0 then 0 else 2 * Low(x / 2, k - 1) + x % 2
  }

  lemma {:induction false} AndOnes(x: nat, k: nat)
    ensures And(x, Pow2(k) - 1) == Low(x, k)
  {
    if k > 0 {
      AndOnes(x / 2, k - 1);
      assert (Pow2(k) - 1) / 2 == Pow2(k - 1) - 1;
      LowOfZero(k);
    }
  }

  lemma {:induction false} LowOfZero(k: nat)
    ensures Low(0, k) == 0
  {
    if k > 0 { LowOfZero(k - 1); }
  }

  /** A mask of ones from digit k to digit n - 1. */
  lemma {:induction false} AndOnesFrom(x: nat, k: nat, n: nat)
    requires k <= n && x < Pow2(n)
    ensures Pow2(k) <= Pow2(n)
    ensures And(x, Pow2(n) - Pow2(k)) == x - Low(x, k)
  {
    if k > 0 {
      AndOnesFrom(x / 2, k - 1, n - 1);
      AndDoubled(x, Pow2(n - 1) - Pow2(k - 1));
    } else {
      AndOnes(x, n);
      LowOfAll(x, n);
    }
  }

  lemma {:induction false} AndDoubled(x: nat, y: nat)
    ensures And(x, 2 * y) == 2 * And(x / 2, y)
  {
  }

  lemma {:induction false} LowOfAll(x: nat, n: nat)
    requires x < Pow2(n)
    ensures Low(x, n) == x
  {
    if n > 0 { LowOfAll(x / 2, n - 1); }
  }

  lemma Low3(x: nat, k: nat)
    ensures Low(x, k + 3) == 8 * Low(x / 8, k) + x % 8
  {
    assert Low(x, k + 3) == 2 * Low(x / 2, k + 2) + x % 2;
    assert Low(x / 2, k + 2) == 2 * Low(x / 2 / 2, k + 1) + x / 2 % 2;
    assert Low(x / 2 / 2, k + 1) == 2 * Low(x / 2 / 2 / 2, k) + x / 2 / 2 % 2;
    assert x / 2 / 2 / 2 == x / 8;
  }

  lemma DivModUnique(x: nat, d: nat, q: nat, r: nat)
    requires x == d * q + r && r < d
    ensures x / d == q && x % d == r
  {
    MultipleIsFar(d, x / d - q);
    assert d * (x / d - q) == r - x % d;
  }

  lemma MultipleIsFar(d: nat, e: int)
    ensures e >= 1 ==> d * e >= d
    ensures e <= -1 ==> d * e + d <= 0
  {
  }

  lemma ModSplits(x: nat)
    ensures x % 64 == 8 * (x / 8 % 8) + x % 8
    ensures x % 512 == 8 * (x / 8 % 64) + x % 8
    ensures x % 4096 == 8 * (x / 8 % 512) + x % 8
  {
    ModSplit(x, 8);
    ModSplit(x, 64);
    ModSplit(x, 512);
  }

  lemma ModSplit(x: nat, d: nat)
    requires d >= 1
    ensures x % (8 * d) == 8 * (x / 8 % d) + x % 8
  {
    var y, r := x / 8, x % 8;
    assert 8 * d * (y / d) == 8 * (d * (y / d));
    DivModUnique(x, 8 * d, y / d, 8 * (y % d) + r);
  }

  lemma Low9(x: nat)
    ensures Low(x, 9) == x % 512
  {
    Low3(x, 6);
    Low3(x / 8, 3);
    Low3(x / 8 / 8, 0);
    hide Low;
    ModSplits(x);
    ModSplits(x / 8);
  }

  lemma Low12(x: nat)
    ensures Low(x, 12) == x % 4096
  {
    hide Low;
    Low3(x, 9);
    Low9(x / 8);
    ModSplits(x);
  }

  lemma {:induction false} OrOne(x: nat)
    requires x % 2 == 0
    ensures Or(x, 1) == x + 1
  {
    assert Or(x / 2, 0) == x / 2;
  }

  lemma {:induction false} Pow2Adds(j: nat, k: nat)
    ensures Pow2(j + k) == Pow2(j) * Pow2(k)
  {
    if j > 0 { Pow2Adds(j - 1, k); }
  }

  /** The values of the constants that appear as masks and shift amounts. */
  lemma Powers()
    ensures Pow2(9) == 512 && Pow2(12) == 4096 && Pow2(64) == TWO64
    ensures Pow2(21) == 0x20_0000 && Pow2(30) == 0x4000_0000 && Pow2(39) == 0x80_0000_0000
    ensures Pow2(48) == 0x1_0000_0000_0000 && Pow2(52) == 0x10_0000_0000_0000
  {
    assert Pow2(3) == 8 && Pow2(4) == 16 && Pow2(9) == 512 && Pow2(12) == 4096;
    Pow2Adds(9, 12);
    Pow2Adds(9, 21);
    Pow2Adds(9, 30);
    Pow2Adds(9, 39);
    Pow2Adds(4, 48);
    Pow2Adds(12, 52);
  }

  lemma Shl12(x: Word)
    ensures Shl(x, 12) == (x % 0x10_0000_0000_0000) * 0x1000
  {
    Powers();
    var q, r := x / 0x10_0000_0000_0000, x % 0x10_0000_0000_0000;
    DivModUnique(x * 0x1000, TWO64, q, r * 0x1000);
  }

  lemma Shr12(x: Word)
    ensures Shr(x, 12) == x / 0x1000
  {
    Powers();
  }
}
