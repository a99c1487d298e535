/** The widths of the words, written out. */
module Words {
  import opened UintMath

  lemma PowOfSum(base: nat, a: nat, b: nat, x: int, y: int)
    requires Pow(base, a) == x && Pow(base, b) == y
    ensures Pow(base, a + b) == x * y
  {
    PowAdd(base, a, b);
  }

  lemma SmallPowers()
    ensures Pow(2, 1) == 2 && Pow(2, 8) == 0x100 && Pow(2, 15) == 0x8000 && Pow(10, 9) == 1_000_000_000
  {
    PowUnfolds(2, 1);
    PowUnfolds(10, 1);
    hide Pow;
    PowOfSum(2, 1, 1, 2, 2);
    PowOfSum(2, 1, 2, 2, 4);
    PowOfSum(2, 2, 2, 4, 4);
    PowOfSum(2, 4, 4, 16, 16);
    PowOfSum(2, 3, 4, 8, 16);
    PowOfSum(2, 7, 8, 128, 256);
    PowOfSum(10, 1, 1, 10, 10);
    PowOfSum(10, 1, 2, 10, 100);
    PowOfSum(10, 3, 3, 1000, 1000);
    PowOfSum(10, 3, 6, 1000, 1_000_000);
  }

  lemma WordsSpelled()
    ensures UINT64_MAX == 0xFFFF_FFFF_FFFF_FFFF
    ensures INT128_MAX == 0x7FFF_FFFF_FFFF_FFFF_FFFF_FFFF_FFFF_FFFF
    ensures UINT128_MAX == 0xFFFF_FFFF_FFFF_FFFF_FFFF_FFFF_FFFF_FFFF
    ensures UINT160_MAX == 0xFFFF_FFFF_FFFF_FFFF_FFFF_FFFF_FFFF_FFFF_FFFF_FFFF
    ensures UINT192_MAX == 0xFFFF_FFFF_FFFF_FFFF_FFFF_FFFF_FFFF_FFFF_FFFF_FFFF_FFFF_FFFF
    ensures UINT256_MAX == 0xFFFF_FFFF_FFFF_FFFF_FFFF_FFFF_FFFF_FFFF_FFFF_FFFF_FFFF_FFFF_FFFF_FFFF_FFFF_FFFF
  {
    SmallPowers();
    hide Pow;
    PowOfSum(2, 8, 8, 0x100, 0x100);
    PowOfSum(2, 16, 16, 0x1_0000, 0x1_0000);
    PowOfSum(2, 32, 32, 0x1_0000_0000, 0x1_0000_0000);
    PowOfSum(2, 64, 64, 0x1_0000_0000_0000_0000, 0x1_0000_0000_0000_0000);
    PowOfSum(2, 15, 16, 0x8000, 0x1_0000);
    PowOfSum(2, 31, 32, 0x8000_0000, 0x1_0000_0000);
    PowOfSum(2, 63, 64, 0x8000_0000_0000_0000, 0x1_0000_0000_0000_0000);
    PowOfSum(2, 32, 128, 0x1_0000_0000, Pow(2, 128));
    PowOfSum(2, 64, 128, 0x1_0000_0000_0000_0000, Pow(2, 128));
    PowOfSum(2, 128, 128, Pow(2, 128), Pow(2, 128));
  }
}
