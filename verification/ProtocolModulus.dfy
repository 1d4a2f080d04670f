/** The one modulus both binaries are compiled with, and its primality. */
module ProtocolModulus {
  import opened Arithmetic
  import opened NumberTheory

  const PROTOCOL_MODULUS: nat := 998_244_353

  /** `3^119`, which has order `2^23`, followed by its successive squares. */
  const CHAIN: seq<nat> := [
    15_311_432, 267_099_868, 733_596_141, 565_042_129, 363_395_222, 996_173_970,
    24_514_907, 629_671_588, 968_855_178, 666_702_199, 350_007_156, 63_912_897,
    584_193_783, 258_648_936, 166_035_806, 476_477_967, 781_712_469, 922_799_308,
    452_798_380, 929_031_873, 372_528_824, 911_660_635, 998_244_352]

  /** How often the modulus fits into each square. */
  const QUOTIENTS: seq<nat> := [
    234_852, 71_467_811, 539_109_784, 319_834_123, 132_288_338, 994_107_881,
    602_037, 397_183_622, 940_331_245, 445_273_565, 122_720_463, 4_092_042,
    341_882_601, 67_016_930, 27_616_373, 227_430_540, 612_149_101, 853_056_228,
    205_386_959, 864_618_185, 139_021_797, 832_586_841]

  ghost predicate IsChain(chain: seq<nat>) {
    forall i | 0 <= i < |chain| - 1 :: (chain[i] * chain[i]) % PROTOCOL_MODULUS == chain[i + 1]
  }

  lemma ChainIsChain()
    ensures IsChain(CHAIN)
  {
    forall i | 0 <= i < |CHAIN| - 1 ensures (CHAIN[i] * CHAIN[i]) % PROTOCOL_MODULUS == CHAIN[i + 1] {
      SquareStep(CHAIN[i], QUOTIENTS[i], CHAIN[i + 1]);
    }
  }

  lemma SquareStep(x: nat, q: nat, y: nat)
    requires y < PROTOCOL_MODULUS && x * x == q * PROTOCOL_MODULUS + y
    ensures (x * x) % PROTOCOL_MODULUS == y
  {
  }

  /** Squaring down a chain that ends at minus one. */
  lemma {:induction false} ChainTurns(chain: seq<nat>)
    requires chain != [] && IsChain(chain) && chain[|chain| - 1] == PROTOCOL_MODULUS - 1
    ensures Pow(chain[0], Pow2(|chain| - 1)) % PROTOCOL_MODULUS == PROTOCOL_MODULUS - 1
  {
    var x, n := chain[0], |chain| - 1;
    if n == 0 {
      assert Pow(x, 1) == x * Pow(x, 0);
    } else {
      ChainTurns(chain[1..]);
      PowMod(x * x, Pow2(n - 1), PROTOCOL_MODULUS);
      PowMul(x, 2, Pow2(n - 1));
      assert Pow(x, 2) == x * (x * 1) by { assert Pow(x, 1) == x * Pow(x, 0); }
    }
  }

  lemma TwoToThe23()
    ensures Pow2(23) == 8_388_608
  {
    assert Pow2(7) == 128 && Pow2(8) == 256;
    Pow2Add(8, 8);
    Pow2Add(16, 7);
  }

  /** The protocol modulus is prime, so the field laws the protocol relies on
      hold of it. */
  lemma ProtocolModulusIsPrime()
    ensures Prime(PROTOCOL_MODULUS)
  {
    ChainIsChain();
    ChainTurns(CHAIN);
    TwoToThe23();
    TwoPowerCertificate(PROTOCOL_MODULUS, CHAIN[0], 23);
  }
}
