/** SipHash-2-4 on inputs whose hashes are published: the empty one, and the fifteen bytes of the paper's appendix. */
module HashVectors {
  import opened Hasher

  // ----- the steps, word by word -----

  lemma NothingAbsorbed()
    ensures Absorb(State(0x7469_6861_7371_6475, 0x6b61_7f6d_656e_6665, 0x6b7f_6261_6d67_7361, 0x7b6b_696e_727e_6c7b),
        0x0000_0000_0000_0000)
      == State(0x7512_6fd4_4af1_90b6, 0x0842_3516_4f06_142b, 0x37b0_4f9f_8026_831d, 0x1b46_78cd_e825_3231)
  {
  }

  lemma NothingHalfFinished()
    ensures Round(Round(State(0x7512_6fd4_4af1_90b6, 0x0842_3516_4f06_142b, 0x37b0_4f9f_8026_83e2, 0x1b46_78cd_e825_3231)))
      == State(0x3abf_d962_3238_d0a7, 0xb935_4b58_07b0_cd1e, 0xae10_9fa2_ba56_082a, 0x58dc_f8f2_cf5b_8028)
  {
  }

  lemma NothingRest()
    ensures Round(Round(State(0x3abf_d962_3238_d0a7, 0xb935_4b58_07b0_cd1e, 0xae10_9fa2_ba56_082a, 0x58dc_f8f2_cf5b_8028)))
      == State(0xe738_d0df_dc9b_2453, 0x214a_c577_1e0c_4cd2, 0xe2ea_71f6_8a57_ef6d, 0x56f7_bf19_95ce_89dd)
  {
  }

  lemma NothingFinished()
    ensures Finalize(State(0x7512_6fd4_4af1_90b6, 0x0842_3516_4f06_142b, 0x37b0_4f9f_8026_831d, 0x1b46_78cd_e825_3231))
      == 0x726f_db47_dd0e_0e31
  {
    hide Round;
    NothingHalfFinished();
    NothingRest();
  }

  lemma FirstWordAbsorbed()
    ensures Absorb(State(0x7469_6861_7371_6475, 0x6b61_7f6d_656e_6665, 0x6b7f_6261_6d67_7361, 0x7b6b_696e_727e_6c7b),
        0x0706_0504_0302_0100)
      == State(0x4a01_7198_de0a_59e0, 0x0d52_f6f6_2a4f_59a4, 0x634c_b357_7b01_fd3d, 0xa522_4d6f_55c7_d9c8)
  {
  }

  lemma SecondWordAbsorbed()
    ensures Absorb(State(0x4a01_7198_de0a_59e0, 0x0d52_f6f6_2a4f_59a4, 0x634c_b357_7b01_fd3d, 0xa522_4d6f_55c7_d9c8),
        0x0f0e_0d0c_0b0a_0908)
      == State(0x3c85_b3ab_6f55_be51, 0x414f_c3fb_98ef_e374, 0xccf1_3ea5_27b9_f4bd, 0x5293_f5da_8400_8f82)
  {
  }

  lemma FifteenHalfFinished()
    ensures Round(Round(State(0x3c85_b3ab_6f55_be51, 0x414f_c3fb_98ef_e374, 0xccf1_3ea5_27b9_f442, 0x5293_f5da_8400_8f82)))
      == State(0xb6c3_fbde_cc2a_e4b4, 0x1638_c86a_dc6b_3cf0, 0x28b8_b6ab_6255_3d46, 0xc946_5e86_ec43_eb95)
  {
  }

  lemma FifteenRest()
    ensures Round(Round(State(0xb6c3_fbde_cc2a_e4b4, 0x1638_c86a_dc6b_3cf0, 0x28b8_b6ab_6255_3d46, 0xc946_5e86_ec43_eb95)))
      == State(0xf6bc_d538_93fe_cff1, 0x54b9_964c_7ea0_d937, 0x1b38_329c_099b_b55a, 0x1814_bb89_ad7b_e679)
  {
  }

  lemma FifteenFinished()
    ensures Finalize(State(0x3c85_b3ab_6f55_be51, 0x414f_c3fb_98ef_e374, 0xccf1_3ea5_27b9_f4bd, 0x5293_f5da_8400_8f82))
      == 0xa129_ca61_49be_45e5
  {
    hide Round;
    FifteenHalfFinished();
    FifteenRest();
  }

  // ----- words -----

  lemma LowerTail(bs: seq<bv8>, i: nat)
    requires i < |bs| <= 8
    ensures LeWord(bs[i..]) == (bs[i] as Word) | (LeWord(bs[i + 1..]) << 8)
  {
    assert bs[i..][1..] == bs[i + 1..];
  }

  lemma Shifts(a: Word, b: Word, c: Word, d: Word, e: Word, f: Word, g: Word, h: Word)
    ensures a | ((b | ((c | ((d | ((e | ((f | ((g | (h << 8)) << 8)) << 8)) << 8)) << 8)) << 8)) << 8)
      == a | (b << 8) | (c << 16) | (d << 24) | (e << 32) | (f << 40) | (g << 48) | (h << 56)
  {
  }

  /** The first byte of a word is its lowest. */
  lemma LittleEndian(bs: seq<bv8>)
    requires |bs| == 8
    ensures LeWord(bs) == (bs[0] as Word) | (bs[1] as Word << 8) | (bs[2] as Word << 16) | (bs[3] as Word << 24)
      | (bs[4] as Word << 32) | (bs[5] as Word << 40) | (bs[6] as Word << 48) | (bs[7] as Word << 56)
  {
    hide LeWord;
    LowerTail(bs, 0);
    LowerTail(bs, 1);
    LowerTail(bs, 2);
    LowerTail(bs, 3);
    LowerTail(bs, 4);
    LowerTail(bs, 5);
    LowerTail(bs, 6);
    LowerTail(bs, 7);
    assert bs[0..] == bs && bs[8..] == [];
    EmptyWord();
    Shifts(bs[0] as Word, bs[1] as Word, bs[2] as Word, bs[3] as Word, bs[4] as Word, bs[5] as Word, bs[6] as Word, bs[7] as Word);
  }

  // ----- the key of the paper, and what is hashed under it -----

  const K0: Word := 0x0706_0504_0302_0100
  const K1: Word := 0x0f0e_0d0c_0b0a_0908

  lemma StartState()
    ensures Start(K0, K1) == State(0x7469_6861_7371_6475, 0x6b61_7f6d_656e_6665, 0x6b7f_6261_6d67_7361, 0x7b6b_696e_727e_6c7b)
  {
  }

  lemma OneWord(s: State, bs: seq<bv8>)
    requires |bs| == 8
    ensures AbsorbWords(s, bs) == Absorb(s, LeWord(bs))
  {
    hide Absorb, LeWord;
    assert bs[..8] == bs && bs[8..] == [];
  }

  /** The hash of nothing. */
  lemma HashOfNothing()
    ensures SipHash24(K0, K1, []) == 0x726f_db47_dd0e_0e31
  {
    hide Absorb, LeWord, Finalize, AbsorbWords;
    var p: seq<bv8> := [0, 0, 0, 0, 0, 0, 0, 0];
    assert Padded([]) == p;
    StartState();
    LittleEndian(p);
    OneWord(Start(K0, K1), p);
    NothingAbsorbed();
    NothingFinished();
  }

  /** The hash of the bytes from 0 to 14, the example of the paper. */
  lemma HashOfFifteen()
    ensures SipHash24(K0, K1, [0, 1, 2, 3, 4, 5, 6, 7, 8, 9, 10, 11, 12, 13, 14]) == 0xa129_ca61_49be_45e5
  {
    hide Absorb, LeWord, Finalize, AbsorbWords;
    var m: seq<bv8> := [0, 1, 2, 3, 4, 5, 6, 7, 8, 9, 10, 11, 12, 13, 14];
    var first, last: seq<bv8> := [0, 1, 2, 3, 4, 5, 6, 7], [8, 9, 10, 11, 12, 13, 14, 15];
    assert Padded(m) == first + last;
    StartState();
    LittleEndian(first);
    LittleEndian(last);
    AbsorbLast(Start(K0, K1), first, last);
    OneWord(Start(K0, K1), first);
    FirstWordAbsorbed();
    SecondWordAbsorbed();
    FifteenFinished();
  }

  /** The same from a hasher, whatever the writes that the fifteen bytes come in. */
  lemma FifteenInWrites(chunks: seq<seq<bv8>>)
    requires Joined(chunks) == [0, 1, 2, 3, 4, 5, 6, 7, 8, 9, 10, 11, 12, 13, 14]
    ensures Digest(Writes(Fresh(K0, K1), chunks)) == 0xa129_ca61_49be_45e5
  {
    hide Digest, Writes, Fresh, SipHash24;
    WritesHashTheWhole(K0, K1, chunks);
    HashOfFifteen();
  }
}
