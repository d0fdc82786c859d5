/** A known answer for module Fips180: the digest of "abc", round by round. */
module Fips180Example {
  import opened Bytes
  import opened Fips180

  const ABC: seq<Byte> := [0x61, 0x62, 0x63]

  /** The one block of the padded message. */
  function Block(): (r: seq<Word>)
    ensures |r| == 16
  {
    [0x61626380, 0, 0, 0, 0, 0, 0, 0, 0, 0, 0, 0, 0, 0, 0, 0x18]
  }

  lemma BlockWords()
    ensures Block()[0] == 0x61626380 && Block()[15] == 0x18
    ensures forall i :: 1 <= i < 15 ==> Block()[i] == 0
  {
  }

  /** One round: w is the word of the schedule, a the new first variable. */
  lemma Next(t: nat, s: State, w: Word, a: Word) returns (next: State)
    requires Rounds(Block(), H0, t) == s
    requires w == if t < 16 then Block()[t]
                  else NextWord(W(Block(), t - 3), W(Block(), t - 8), W(Block(), t - 14), W(Block(), t - 16))
    requires a == Temp(s.a.RotateLeft(5), F(t, s.b, s.c, s.d), s.e, K(t), w)
    ensures W(Block(), t) == w
    ensures next == State(a, s.a, s.b.RotateLeft(30), s.c, s.d) && Rounds(Block(), H0, t + 1) == next
  {
    hide Block;
    next := State(a, s.a, s.b.RotateLeft(30), s.c, s.d);
  }

  lemma NoRounds()
    ensures Rounds(Block(), H0, 0) == H0
  {
  }

  lemma Rounds0To15()
    ensures Rounds(Block(), H0, 16) == State(0x20bdd62f, 0x196bee77, 0x644a3da5, 0x1181ed99, 0x18c623f9)
    ensures W(Block(), 0) == 0x61626380 && W(Block(), 15) == 0x18
    ensures forall t :: 0 < t < 15 ==> W(Block(), t) == 0
  {
    hide Rounds, W, Block;
    NoRounds();
    BlockWords();
    var s := H0;
    s := Next(0, s, 0x61626380, 0x0116fc33);
    s := Next(1, s, 0x00000000, 0x8990536d);
    s := Next(2, s, 0x00000000, 0xa1390f08);
    s := Next(3, s, 0x00000000, 0xcdd8e11b);
    s := Next(4, s, 0x00000000, 0xcfd499de);
    s := Next(5, s, 0x00000000, 0x3fc7ca40);
    s := Next(6, s, 0x00000000, 0x993e30c1);
    s := Next(7, s, 0x00000000, 0x9e8c07d4);
    s := Next(8, s, 0x00000000, 0x4b6ae328);
    s := Next(9, s, 0x00000000, 0x8351f929);
    s := Next(10, s, 0x00000000, 0xfbda9e89);
    s := Next(11, s, 0x00000000, 0x63188fe4);
    s := Next(12, s, 0x00000000, 0x4607b664);
    s := Next(13, s, 0x00000000, 0x9128f695);
    s := Next(14, s, 0x00000000, 0x196bee77);
    s := Next(15, s, 0x00000018, 0x20bdd62f);
  }

  lemma Rounds16To31()
    ensures Rounds(Block(), H0, 32) == State(0x3b845d33, 0x1267b407, 0x717eebd7, 0xa0dc2d4b, 0xd2aa1365)
    ensures W(Block(), 16) == 0xc2c4c700 && W(Block(), 17) == 0x00000000
    ensures W(Block(), 18) == 0x00000030 && W(Block(), 19) == 0x85898e01
    ensures W(Block(), 20) == 0x00000000 && W(Block(), 21) == 0x00000060
    ensures W(Block(), 22) == 0x0b131c03 && W(Block(), 23) == 0x00000030
    ensures W(Block(), 24) == 0x85898ec1 && W(Block(), 25) == 0x16263806
    ensures W(Block(), 26) == 0x00000000 && W(Block(), 27) == 0x00000180
    ensures W(Block(), 28) == 0x2c4c700c && W(Block(), 29) == 0x000000f0
    ensures W(Block(), 30) == 0x93afb507 && W(Block(), 31) == 0x5898e048
  {
    hide Rounds, W, Block;
    Rounds0To15();
    var s := State(0x20bdd62f, 0x196bee77, 0x644a3da5, 0x1181ed99, 0x18c623f9);
    s := Next(16, s, 0xc2c4c700, 0x4e925823);
    s := Next(17, s, 0x00000000, 0x82aa6728);
    s := Next(18, s, 0x00000030, 0xdc64901d);
    s := Next(19, s, 0x85898e01, 0xfd9e1d7d);
    s := Next(20, s, 0x00000000, 0x1a37b0ca);
    s := Next(21, s, 0x00000060, 0x33a23bfc);
    s := Next(22, s, 0x0b131c03, 0x21283486);
    s := Next(23, s, 0x00000030, 0xd541f12d);
    s := Next(24, s, 0x85898ec1, 0xc7567dc6);
    s := Next(25, s, 0x16263806, 0x48413ba4);
    s := Next(26, s, 0x00000000, 0xbe35fbd5);
    s := Next(27, s, 0x00000180, 0x4aa84d97);
    s := Next(28, s, 0x2c4c700c, 0x8370b52e);
    s := Next(29, s, 0x000000f0, 0xc5fbaf5d);
    s := Next(30, s, 0x93afb507, 0x1267b407);
    s := Next(31, s, 0x5898e048, 0x3b845d33);
  }

  lemma Rounds32To47()
    ensures Rounds(Block(), H0, 48) == State(0xbead02ca, 0xa01b846c, 0x8714787c, 0x503ca382, 0xfb86c6ab)
    ensures W(Block(), 32) == 0x8e9a9202 && W(Block(), 33) == 0x00000600
    ensures W(Block(), 34) == 0xb131c0f0 && W(Block(), 35) == 0x16263bc6
    ensures W(Block(), 36) == 0x4ebed41e && W(Block(), 37) == 0x626380a1
    ensures W(Block(), 38) == 0x16263806 && W(Block(), 39) == 0x000018c0
    ensures W(Block(), 40) == 0xd2e138c4 && W(Block(), 41) == 0x00000f00
    ensures W(Block(), 42) == 0x3afb5079 && W(Block(), 43) == 0x898e04e5
    ensures W(Block(), 44) == 0xe2ba3c2b && W(Block(), 45) == 0x000060c0
    ensures W(Block(), 46) == 0x053a37cd && W(Block(), 47) == 0x74458547
  {
    hide Rounds, W, Block;
    Rounds16To31();
    var s := State(0x3b845d33, 0x1267b407, 0x717eebd7, 0xa0dc2d4b, 0xd2aa1365);
    s := Next(32, s, 0x8e9a9202, 0x046faa0a);
    s := Next(33, s, 0x00000600, 0x2c0ebc11);
    s := Next(34, s, 0xb131c0f0, 0x21796ad4);
    s := Next(35, s, 0x16263bc6, 0xdcbbb0cb);
    s := Next(36, s, 0x4ebed41e, 0x0f511fd8);
    s := Next(37, s, 0x626380a1, 0xdc63973f);
    s := Next(38, s, 0x16263806, 0x4c986405);
    s := Next(39, s, 0x000018c0, 0x32de1cba);
    s := Next(40, s, 0xd2e138c4, 0xfc87dedf);
    s := Next(41, s, 0x00000f00, 0x970a0d5c);
    s := Next(42, s, 0x3afb5079, 0x7f193dc5);
    s := Next(43, s, 0x898e04e5, 0xee1b1aaf);
    s := Next(44, s, 0xe2ba3c2b, 0x40f28e09);
    s := Next(45, s, 0x000060c0, 0x1c51e1f2);
    s := Next(46, s, 0x053a37cd, 0xa01b846c);
    s := Next(47, s, 0x74458547, 0xbead02ca);
  }

  lemma Rounds48To63()
    ensures Rounds(Block(), H0, 64) == State(0x6b61c9e1, 0xb66c020b, 0x9523272c, 0xf5d5b051, 0x8fd4b796)
    ensures W(Block(), 48) == 0xda9415ed && W(Block(), 49) == 0x26380a16
    ensures W(Block(), 50) == 0x626383a1 && W(Block(), 51) == 0x4ebf54de
    ensures W(Block(), 52) == 0x3835b44b && W(Block(), 53) == 0x0000f600
    ensures W(Block(), 54) == 0x1e84c7a3 && W(Block(), 55) == 0x98e04d98
    ensures W(Block(), 56) == 0x651d16a0 && W(Block(), 57) == 0x62658ca1
    ensures W(Block(), 58) == 0x458544d6 && W(Block(), 59) == 0x44584cb7
    ensures W(Block(), 60) == 0x7ba06619 && W(Block(), 61) == 0x6380aea2
    ensures W(Block(), 62) == 0x0ae55269 && W(Block(), 63) == 0x627b49a1
  {
    hide Rounds, W, Block;
    Rounds32To47();
    var s := State(0xbead02ca, 0xa01b846c, 0x8714787c, 0x503ca382, 0xfb86c6ab);
    s := Next(48, s, 0xda9415ed, 0xbaf39337);
    s := Next(49, s, 0x26380a16, 0x120731c5);
    s := Next(50, s, 0x626383a1, 0x641db2ce);
    s := Next(51, s, 0x4ebf54de, 0x3847ad66);
    s := Next(52, s, 0x3835b44b, 0xe490436d);
    s := Next(53, s, 0x0000f600, 0x27e9f1d8);
    s := Next(54, s, 0x1e84c7a3, 0x7b71f76d);
    s := Next(55, s, 0x98e04d98, 0x5e6456af);
    s := Next(56, s, 0x651d16a0, 0xc846093f);
    s := Next(57, s, 0x62658ca1, 0xd262ff50);
    s := Next(58, s, 0x458544d6, 0x09d785fd);
    s := Next(59, s, 0x44584cb7, 0x3f52de5a);
    s := Next(60, s, 0x7ba06619, 0xd756c147);
    s := Next(61, s, 0x6380aea2, 0x548c9cb2);
    s := Next(62, s, 0x0ae55269, 0xb66c020b);
    s := Next(63, s, 0x627b49a1, 0x6b61c9e1);
  }

  lemma Rounds64To79()
    ensures Rounds(Block(), H0, 80) == State(0x42541b35, 0x5738d5e1, 0x21834873, 0x681e6df6, 0xd8fdf6ad)
  {
    hide Rounds, W, Block;
    Rounds48To63();
    var s := State(0x6b61c9e1, 0xb66c020b, 0x9523272c, 0xf5d5b051, 0x8fd4b796);
    s := Next(64, s, 0x7cd45c9d, 0x19dfa7ac);
    s := Next(65, s, 0x000f0000, 0x101655f9);
    s := Next(66, s, 0xfb50753a, 0x0c3df2b4);
    s := Next(67, s, 0xec6765e8, 0x78dd4d2b);
    s := Next(68, s, 0xba3c2be2, 0x497093c0);
    s := Next(69, s, 0x0060c000, 0x3f2588c2);
    s := Next(70, s, 0x3a37cd05, 0xc199f8c7);
    s := Next(71, s, 0x458546f4, 0x39859de7);
    s := Next(72, s, 0xb8599dd6, 0xedb42de4);
    s := Next(73, s, 0x380a1a26, 0x11793f6f);
    s := Next(74, s, 0x01e02203, 0x5ee76897);
    s := Next(75, s, 0xe7cc3456, 0x63f7dab7);
    s := Next(76, s, 0xe6e60b69, 0xa079b7d9);
    s := Next(77, s, 0x00f60a00, 0x860d21cc);
    s := Next(78, s, 0x5795ef4f, 0x5738d5e1);
    s := Next(79, s, 0x822e0879, 0x42541b35);
  }

  lemma PaddedAbc()
    ensures |Pad(ABC)| == 64 && Parse(Pad(ABC)) == Block()
  {
    hide Parse, Block;
    PadAbc();
    BlockWords();
    forall i | 0 <= i < 16
      ensures Parse(Pad(ABC))[i] == Block()[i]
    {
      WordOfPad(i);
    }
  }

  lemma PadAbc()
    ensures Pad(ABC) == ABC + [0x80] + Zeros(52) + [0, 0, 0, 0, 0, 0, 0, 0x18]
  {
    assert ZeroCount(3) == 52;
    assert BigEndian64(24) == [0, 0, 0, 0, 0, 0, 0, 0x18];
  }

  lemma ByteOfPad(k: nat)
    requires k < 64
    ensures |Pad(ABC)| == 64
    ensures Pad(ABC)[k] == if k < 3 then ABC[k] else if k == 3 then 0x80 else if k == 63 then 0x18 else 0
  {
    hide Pad;
    PadAbc();
  }

  lemma WordOfPad(i: nat)
    requires i < 16
    ensures |Pad(ABC)| == 64
    ensures Parse(Pad(ABC))[i] == if i == 0 then 0x61626380 else if i == 15 then 0x18 else 0
  {
    hide BigEndian32, Pad;
    ByteOfPad(4 * i);
    ByteOfPad(4 * i + 1);
    ByteOfPad(4 * i + 2);
    ByteOfPad(4 * i + 3);
    LiteralWords();
    var s := Pad(ABC);
    assert s[4 * i..4 * i + 4] == [s[4 * i], s[4 * i + 1], s[4 * i + 2], s[4 * i + 3]];
  }

  lemma LiteralWords()
    ensures BigEndian32([0x61, 0x62, 0x63, 0x80]) == 0x61626380
    ensures BigEndian32([0, 0, 0, 0]) == 0 && BigEndian32([0, 0, 0, 0x18]) == 0x18
  {
  }

  lemma AbcDigest()
    ensures Sha1(ABC) == [0xa9, 0x99, 0x3e, 0x36, 0x47, 0x06, 0x81, 0x6a, 0xba, 0x3e,
                          0x25, 0x71, 0x78, 0x50, 0xc2, 0x6c, 0x9c, 0xd0, 0xd8, 0x9d]
  {
    hide Rounds, W, Parse, Pad, Block;
    PaddedAbc();
    Rounds64To79();
    assert HashBlocks([]) == H0;
  }
}
