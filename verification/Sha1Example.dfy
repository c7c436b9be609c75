/** The example of section A.1 of FIPS 180-2: the SHA-1 of "abc", from its one block to the 20 bytes. */
module Sha1Example {
  import opened Bytes
  import opened BlockDigest
  import opened Sha1
  import opened Sha1Digest

  const ABC: seq<word> := [0x61626380, 0, 0, 0, 0, 0, 0, 0, 0, 0, 0, 0, 0, 0, 0, 24]

  // ----- the message schedule

  lemma Words16()
    ensures W(ABC, 0) == 0x61626380 && W(ABC, 1) == 0x00000000 && W(ABC, 2) == 0x00000000 && W(ABC, 3) == 0x00000000
    ensures W(ABC, 4) == 0x00000000 && W(ABC, 5) == 0x00000000 && W(ABC, 6) == 0x00000000 && W(ABC, 7) == 0x00000000
    ensures W(ABC, 8) == 0x00000000 && W(ABC, 9) == 0x00000000 && W(ABC, 10) == 0x00000000 && W(ABC, 11) == 0x00000000
    ensures W(ABC, 12) == 0x00000000 && W(ABC, 13) == 0x00000000 && W(ABC, 14) == 0x00000000 && W(ABC, 15) == 0x00000018
  {
    FirstWords(ABC, 0);
  }

  lemma Words32()
    ensures W(ABC, 16) == 0xC2C4C700 && W(ABC, 17) == 0x00000000 && W(ABC, 18) == 0x00000030 && W(ABC, 19) == 0x85898E01
    ensures W(ABC, 20) == 0x00000000 && W(ABC, 21) == 0x00000060 && W(ABC, 22) == 0x0B131C03 && W(ABC, 23) == 0x00000030
    ensures W(ABC, 24) == 0x85898EC1 && W(ABC, 25) == 0x16263806 && W(ABC, 26) == 0x00000000 && W(ABC, 27) == 0x00000180
    ensures W(ABC, 28) == 0x2C4C700C && W(ABC, 29) == 0x000000F0 && W(ABC, 30) == 0x93AFB507 && W(ABC, 31) == 0x5898E048
  {
    hide W;
    Words16();
    LaterWords(ABC, 16); LaterWords(ABC, 17); LaterWords(ABC, 18); LaterWords(ABC, 19);
    LaterWords(ABC, 20); LaterWords(ABC, 21); LaterWords(ABC, 22); LaterWords(ABC, 23);
    LaterWords(ABC, 24); LaterWords(ABC, 25); LaterWords(ABC, 26); LaterWords(ABC, 27);
    LaterWords(ABC, 28); LaterWords(ABC, 29); LaterWords(ABC, 30); LaterWords(ABC, 31);
  }

  lemma Words48()
    ensures W(ABC, 32) == 0x8E9A9202 && W(ABC, 33) == 0x00000600 && W(ABC, 34) == 0xB131C0F0 && W(ABC, 35) == 0x16263BC6
    ensures W(ABC, 36) == 0x4EBED41E && W(ABC, 37) == 0x626380A1 && W(ABC, 38) == 0x16263806 && W(ABC, 39) == 0x000018C0
    ensures W(ABC, 40) == 0xD2E138C4 && W(ABC, 41) == 0x00000F00 && W(ABC, 42) == 0x3AFB5079 && W(ABC, 43) == 0x898E04E5
    ensures W(ABC, 44) == 0xE2BA3C2B && W(ABC, 45) == 0x000060C0 && W(ABC, 46) == 0x053A37CD && W(ABC, 47) == 0x74458547
  {
    hide W;
    Words32();
    LaterWords(ABC, 32); LaterWords(ABC, 33); LaterWords(ABC, 34); LaterWords(ABC, 35);
    LaterWords(ABC, 36); LaterWords(ABC, 37); LaterWords(ABC, 38); LaterWords(ABC, 39);
    LaterWords(ABC, 40); LaterWords(ABC, 41); LaterWords(ABC, 42); LaterWords(ABC, 43);
    LaterWords(ABC, 44); LaterWords(ABC, 45); LaterWords(ABC, 46); LaterWords(ABC, 47);
  }

  lemma Words64()
    ensures W(ABC, 48) == 0xDA9415ED && W(ABC, 49) == 0x26380A16 && W(ABC, 50) == 0x626383A1 && W(ABC, 51) == 0x4EBF54DE
    ensures W(ABC, 52) == 0x3835B44B && W(ABC, 53) == 0x0000F600 && W(ABC, 54) == 0x1E84C7A3 && W(ABC, 55) == 0x98E04D98
    ensures W(ABC, 56) == 0x651D16A0 && W(ABC, 57) == 0x62658CA1 && W(ABC, 58) == 0x458544D6 && W(ABC, 59) == 0x44584CB7
    ensures W(ABC, 60) == 0x7BA06619 && W(ABC, 61) == 0x6380AEA2 && W(ABC, 62) == 0x0AE55269 && W(ABC, 63) == 0x627B49A1
  {
    hide W;
    Words48();
    LaterWords(ABC, 48); LaterWords(ABC, 49); LaterWords(ABC, 50); LaterWords(ABC, 51);
    LaterWords(ABC, 52); LaterWords(ABC, 53); LaterWords(ABC, 54); LaterWords(ABC, 55);
    LaterWords(ABC, 56); LaterWords(ABC, 57); LaterWords(ABC, 58); LaterWords(ABC, 59);
    LaterWords(ABC, 60); LaterWords(ABC, 61); LaterWords(ABC, 62); LaterWords(ABC, 63);
  }

  lemma Words80()
    ensures W(ABC, 64) == 0x7CD45C9D && W(ABC, 65) == 0x000F0000 && W(ABC, 66) == 0xFB50753A && W(ABC, 67) == 0xEC6765E8
    ensures W(ABC, 68) == 0xBA3C2BE2 && W(ABC, 69) == 0x0060C000 && W(ABC, 70) == 0x3A37CD05 && W(ABC, 71) == 0x458546F4
    ensures W(ABC, 72) == 0xB8599DD6 && W(ABC, 73) == 0x380A1A26 && W(ABC, 74) == 0x01E02203 && W(ABC, 75) == 0xE7CC3456
    ensures W(ABC, 76) == 0xE6E60B69 && W(ABC, 77) == 0x00F60A00 && W(ABC, 78) == 0x5795EF4F && W(ABC, 79) == 0x822E0879
  {
    hide W;
    Words64();
    LaterWords(ABC, 64); LaterWords(ABC, 65); LaterWords(ABC, 66); LaterWords(ABC, 67);
    LaterWords(ABC, 68); LaterWords(ABC, 69); LaterWords(ABC, 70); LaterWords(ABC, 71);
    LaterWords(ABC, 72); LaterWords(ABC, 73); LaterWords(ABC, 74); LaterWords(ABC, 75);
    LaterWords(ABC, 76); LaterWords(ABC, 77); LaterWords(ABC, 78); LaterWords(ABC, 79);
  }

  // ----- the rounds

  lemma Rounds20()
    ensures Rounds(ABC, INITIAL, 20) == Regs(0xFD9E1D7D, 0xDC64901D, 0x20AA99CA, 0xD3A49608, 0xC82F758B)
  {
    assert Rounds(ABC, INITIAL, 0) == INITIAL;
    hide W, Rounds;
    Words16(); Words32();
    FiveRounds(ABC, INITIAL, 0);
    assert Rounds(ABC, INITIAL, 5) == Regs(0xCFD499DE, 0xCDD8E11B, 0x284E43C2, 0x626414DB, 0xC045BF0C);
    FiveRounds(ABC, INITIAL, 5);
    assert Rounds(ABC, INITIAL, 10) == Regs(0x8351F929, 0x4B6AE328, 0x27A301F5, 0x664F8C30, 0x0FF1F290);
    FiveRounds(ABC, INITIAL, 10);
    assert Rounds(ABC, INITIAL, 15) == Regs(0x196BEE77, 0x9128F695, 0x1181ED99, 0x18C623F9, 0x7EF6A7A2);
    FiveRounds(ABC, INITIAL, 15);
  }

  lemma Rounds40()
    ensures Rounds(ABC, INITIAL, 40) == Regs(0x32DE1CBA, 0x4C986405, 0xF718E5CF, 0x03D447F6, 0xF72EEC32)
  {
    hide W, Rounds;
    Rounds20();
    Words32(); Words48();
    FiveRounds(ABC, INITIAL, 20);
    assert Rounds(ABC, INITIAL, 25) == Regs(0xC7567DC6, 0xD541F12D, 0x884A0D21, 0x0CE88EFF, 0x868DEC32);
    FiveRounds(ABC, INITIAL, 25);
    assert Rounds(ABC, INITIAL, 30) == Regs(0xC5FBAF5D, 0x8370B52E, 0xD2AA1365, 0x6F8D7EF5, 0x12104EE9);
    FiveRounds(ABC, INITIAL, 30);
    assert Rounds(ABC, INITIAL, 35) == Regs(0x21796AD4, 0x2C0EBC11, 0x811BEA82, 0xCEE1174C, 0xC499ED01);
    FiveRounds(ABC, INITIAL, 35);
  }

  lemma Rounds60()
    ensures Rounds(ABC, INITIAL, 60) == Regs(0x3F52DE5A, 0x09D785FD, 0x3498BFD4, 0xF211824F, 0xD79915AB)
  {
    hide W, Rounds;
    Rounds40();
    Words48(); Words64();
    FiveRounds(ABC, INITIAL, 40);
    assert Rounds(ABC, INITIAL, 45) == Regs(0x40F28E09, 0xEE1B1AAF, 0x5FC64F71, 0x25C28357, 0xFF21F7B7);
    FiveRounds(ABC, INITIAL, 45);
    assert Rounds(ABC, INITIAL, 50) == Regs(0x120731C5, 0xBAF39337, 0xAFAB40B2, 0x2806E11B, 0x8714787C);
    FiveRounds(ABC, INITIAL, 50);
    assert Rounds(ABC, INITIAL, 55) == Regs(0x7B71F76D, 0x27E9F1D8, 0x792410DB, 0x8E11EB59, 0x99076CB3);
    FiveRounds(ABC, INITIAL, 55);
  }

  lemma Rounds80()
    ensures Rounds(ABC, INITIAL, 80) == Regs(0x42541B35, 0x5738D5E1, 0x21834873, 0x681E6DF6, 0xD8FDF6AD)
  {
    hide W, Rounds;
    Rounds60();
    Words64(); Words80();
    FiveRounds(ABC, INITIAL, 60);
    assert Rounds(ABC, INITIAL, 65) == Regs(0x19DFA7AC, 0x6B61C9E1, 0xED9B0082, 0x9523272C, 0xF5D5B051);
    FiveRounds(ABC, INITIAL, 65);
    assert Rounds(ABC, INITIAL, 70) == Regs(0x3F2588C2, 0x497093C0, 0xDE37534A, 0x030F7CAD, 0x4405957E);
    FiveRounds(ABC, INITIAL, 70);
    assert Rounds(ABC, INITIAL, 75) == Regs(0x5EE76897, 0x11793F6F, 0x3B6D0B79, 0xCE616779, 0xF0667E31);
    FiveRounds(ABC, INITIAL, 75);
  }

  // ----- the message

  ghost predicate OneBlock(block: seq<octet>) {
    && |block| == 64 && block[0] == 0x61 && block[1] == 0x62 && block[2] == 0x63 && block[3] == 0x80
    && (forall k :: 4 <= k < 63 ==> block[k] == 0) && block[63] == 24
  }

  lemma OctetsOfAbc()
    ensures Octet(24) == 24 && Octet(0) == 0
  {}

  lemma PaddedAbc()
    ensures OneBlock(Padded([0x61, 0x62, 0x63], BigEndian64(BitLength([0x61, 0x62, 0x63]))))
  {
    hide Padded, Octet;
    assert Octet(24) == 24 && Octet(0) == 0 by { OctetsOfAbc(); }
    assert BigEndian64(24) == [0, 0, 0, 0, 0, 0, 0, 24];
    hide BigEndian64;
    assert BitLength([0x61, 0x62, 0x63]) == 24;
    PaddedIs([0x61, 0x62, 0x63], BigEndian64(24));
  }

  /** The one block of the message, in words. */
  lemma BlockOfAbc(block: seq<octet>)
    requires OneBlock(block)
    ensures Words(block) == ABC
  {
    hide BigEndian;
    WordsOfAbc();
  }

  lemma WordsOfAbc()
    ensures BigEndian(0x61, 0x62, 0x63, 0x80) == 0x61626380 && BigEndian(0, 0, 0, 0) == 0
    ensures BigEndian(0, 0, 0, 24) == 24
  {}

  lemma DigestOfAbc()
    ensures Digest([0x61, 0x62, 0x63]) ==
            [0xA9, 0x99, 0x3E, 0x36, 0x47, 0x06, 0x81, 0x6A, 0xBA, 0x3E,
             0x25, 0x71, 0x78, 0x50, 0xC2, 0x6C, 0x9C, 0xD0, 0xD8, 0x9D]
  {
    hide Rounds, Words, Padded, BigEndian64, BitLength;
    var block := Padded([0x61, 0x62, 0x63], BigEndian64(BitLength([0x61, 0x62, 0x63])));
    PaddedAbc();
    BlockOfAbc(block);
    Rounds80();
    assert block[..64] == block && block[64..] == [];
    assert Fold(CompressBlock, INITIAL, block) == Plus(INITIAL, Rounds(ABC, INITIAL, 80));
  }
}
