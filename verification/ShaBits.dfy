/** The functions of SHA-512 bit by bit, and its first steps on an illustration of FIPS 180-4. */
module ShaBits {
  import opened Sha512

  // The functions of section 4.1.3 of FIPS 180-4 by bit positions.

  /** Bit `i` of a word, the lowest being bit zero, with positions taken round. */
  function Bit(x: bv64, i: bv7): bv64 {
    (x >> (i & 0x3f)) & 1
  }

  lemma Rotr28(x: bv64, i: bv7)
    ensures Bit(Rotr(x, 28, 36), i) == Bit(x, i + 28)
  {
  }

  lemma Rotr34(x: bv64, i: bv7)
    ensures Bit(Rotr(x, 34, 30), i) == Bit(x, i + 34)
  {
  }

  lemma Rotr39(x: bv64, i: bv7)
    ensures Bit(Rotr(x, 39, 25), i) == Bit(x, i + 39)
  {
  }

  lemma Rotr14(x: bv64, i: bv7)
    ensures Bit(Rotr(x, 14, 50), i) == Bit(x, i + 14)
  {
  }

  lemma Rotr18(x: bv64, i: bv7)
    ensures Bit(Rotr(x, 18, 46), i) == Bit(x, i + 18)
  {
  }

  lemma Rotr41(x: bv64, i: bv7)
    ensures Bit(Rotr(x, 41, 23), i) == Bit(x, i + 41)
  {
  }

  lemma Rotr1(x: bv64, i: bv7)
    ensures Bit(Rotr(x, 1, 63), i) == Bit(x, i + 1)
  {
  }

  lemma Rotr8(x: bv64, i: bv7)
    ensures Bit(Rotr(x, 8, 56), i) == Bit(x, i + 8)
  {
  }

  lemma Rotr19(x: bv64, i: bv7)
    ensures Bit(Rotr(x, 19, 45), i) == Bit(x, i + 19)
  {
  }

  lemma Rotr61(x: bv64, i: bv7)
    ensures Bit(Rotr(x, 61, 3), i) == Bit(x, i + 61)
  {
  }

  lemma Shr7(x: bv64, i: bv7)
    requires i < 64
    ensures Bit(Shr(x, 7), i) == if i < 57 then Bit(x, i + 7) else 0
  {
  }

  lemma Shr6(x: bv64, i: bv7)
    requires i < 64
    ensures Bit(Shr(x, 6), i) == if i < 58 then Bit(x, i + 6) else 0
  {
  }

  lemma SumBit(x: bv64, y: bv64, i: bv7)
    ensures Bit(Xor64(x, y), i) == Xor64(Bit(x, i), Bit(y, i))
  {
  }

  lemma SumBits(x: bv64, y: bv64, z: bv64, i: bv7)
    ensures Bit(Xor3(x, y, z), i) == Xor3(Bit(x, i), Bit(y, i), Bit(z, i))
  {
    hide Bit, Xor64;
    SumBit(x, y, i);
    SumBit(Xor64(x, y), z, i);
  }

  /** Each bit of the big sigmas is the sum of three bits of the operand. */
  lemma BigSigma0Bits(x: bv64, i: bv7)
    ensures Bit(BigSigma0(x), i) == Xor3(Bit(x, i + 28), Bit(x, i + 34), Bit(x, i + 39))
  {
    hide Bit, Rotr, Xor3, Shr;
    Rotr28(x, i);
    Rotr34(x, i);
    Rotr39(x, i);
    SumBits(Rotr(x, 28, 36), Rotr(x, 34, 30), Rotr(x, 39, 25), i);
  }

  lemma BigSigma1Bits(x: bv64, i: bv7)
    ensures Bit(BigSigma1(x), i) == Xor3(Bit(x, i + 14), Bit(x, i + 18), Bit(x, i + 41))
  {
    hide Bit, Rotr, Xor3, Shr;
    Rotr14(x, i);
    Rotr18(x, i);
    Rotr41(x, i);
    SumBits(Rotr(x, 14, 50), Rotr(x, 18, 46), Rotr(x, 41, 23), i);
  }

  /** In the sigmas of the message schedule the third bit is shifted out at the top. */
  lemma Sigma0Bits(x: bv64, i: bv7)
    requires i < 64
    ensures Bit(Sigma0(x), i) == Xor3(Bit(x, i + 1), Bit(x, i + 8), if i < 57 then Bit(x, i + 7) else 0)
  {
    hide Bit, Rotr, Xor3, Shr;
    Rotr1(x, i);
    Rotr8(x, i);
    Shr7(x, i);
    SumBits(Rotr(x, 1, 63), Rotr(x, 8, 56), Shr(x, 7), i);
  }

  lemma Sigma1Bits(x: bv64, i: bv7)
    requires i < 64
    ensures Bit(Sigma1(x), i) == Xor3(Bit(x, i + 19), Bit(x, i + 61), if i < 58 then Bit(x, i + 6) else 0)
  {
    hide Bit, Rotr, Xor3, Shr;
    Rotr19(x, i);
    Rotr61(x, i);
    Shr6(x, i);
    SumBits(Rotr(x, 19, 45), Rotr(x, 61, 3), Shr(x, 6), i);
  }

  /** The choice takes the bits of the second operand where the first has ones, and of the third elsewhere. */
  lemma ChoiceBits(x: bv64, y: bv64, z: bv64)
    ensures Ch(x, y, z) & x == y & x && Ch(x, y, z) & !x == z & !x
  {
  }

  /** The majority takes the bits in which the first two operands agree, and elsewhere those of the third. */
  lemma MajorityBits(x: bv64, y: bv64, z: bv64)
    ensures Maj(x, y, z) & !(x ^ y) == x & !(x ^ y) && Maj(x, y, z) & (x ^ y) == z & (x ^ y)
  {
  }

  // One round and one word of the schedule on the message of three bytes that FIPS 180-4 is illustrated with.

  /** The initial hash value. */
  function Initial(): (h: seq<bv64>) {
    [0x6a09_e667_f3bc_c908, 0xbb67_ae85_84ca_a73b, 0x3c6e_f372_fe94_f82b, 0xa54f_f53a_5f1d_36f1,
     0x510e_527f_ade6_82d1, 0x9b05_688c_2b3e_6c1f, 0x1f83_d9ab_fb41_bd6b, 0x5be0_cd19_137e_2179]
  }

  /** The registers after the first round. */
  lemma FirstRound()
    ensures Round(Initial(), 0x428a_2f98_d728_ae22, 0x6162_6380_0000_0000)
         == [0xf6af_ceb8_bcfc_ddf5, 0x6a09_e667_f3bc_c908, 0xbb67_ae85_84ca_a73b, 0x3c6e_f372_fe94_f82b,
             0x58cb_0234_7ab5_1f91, 0x510e_527f_ade6_82d1, 0x9b05_688c_2b3e_6c1f, 0x1f83_d9ab_fb41_bd6b]
  {
  }

  /** The word of the schedule that takes in words zero, one, nine and fourteen. */
  lemma ScheduleWord(block: seq<bv8>)
    requires |block| == 128 && W(block, 2) == 0 && W(block, 3) == 0 && W(block, 11) == 0
    requires W(block, 16) == 0x6162_6380_0000_0000
    ensures W(block, 18) == 0x0a96_99a2_4c70_0003
  {
  }

  /** The registers after two rounds of a block that starts with those words. */
  lemma SecondRound(ks: seq<bv64>, block: seq<bv8>)
    requires |ks| == 80 && ks[0] == 0x428a_2f98_d728_ae22 && ks[1] == 0x7137_4491_23ef_65cd
    requires |block| == 128 && W(block, 0) == 0x6162_6380_0000_0000 && W(block, 1) == 0
    ensures Rounds(ks, Initial(), block, 2)
         == [0x1320_f8c9_fb87_2cc0, 0xf6af_ceb8_bcfc_ddf5, 0x6a09_e667_f3bc_c908, 0xbb67_ae85_84ca_a73b,
             0xc3d4_ebfd_4865_0ffa, 0x58cb_0234_7ab5_1f91, 0x510e_527f_ade6_82d1, 0x9b05_688c_2b3e_6c1f]
  {
    FirstRound();
    NextRound();
    hide Round, W;
    assert Rounds(ks, Initial(), block, 1) == Round(Rounds(ks, Initial(), block, 0), ks[0], W(block, 0));
  }

  lemma NextRound()
    ensures Round([0xf6af_ceb8_bcfc_ddf5, 0x6a09_e667_f3bc_c908, 0xbb67_ae85_84ca_a73b, 0x3c6e_f372_fe94_f82b,
                   0x58cb_0234_7ab5_1f91, 0x510e_527f_ade6_82d1, 0x9b05_688c_2b3e_6c1f, 0x1f83_d9ab_fb41_bd6b],
                  0x7137_4491_23ef_65cd, 0)
         == [0x1320_f8c9_fb87_2cc0, 0xf6af_ceb8_bcfc_ddf5, 0x6a09_e667_f3bc_c908, 0xbb67_ae85_84ca_a73b,
             0xc3d4_ebfd_4865_0ffa, 0x58cb_0234_7ab5_1f91, 0x510e_527f_ade6_82d1, 0x9b05_688c_2b3e_6c1f]
  {
  }

  /** The hash value before a block is added to the registers after its eighty rounds. */
  lemma FeedForward(ks: seq<bv64>, h: seq<bv64>, block: seq<bv8>, i: nat)
    requires |ks| == 80 && |h| == 8 && |block| == 128 && i < 8
    ensures Compress(ks, h, block)[i] == Rounds(ks, h, block, 80)[i] + h[i]
  {
    hide Round, W, Rounds;
  }
}
