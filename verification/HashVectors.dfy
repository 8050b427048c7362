/** Known digests: they tie constants, rotations and the order of bytes of the hashes to published values. */
module HashVectors {
  import opened Bytes
  import opened BlockFold
  import Digest64
  import Md5
  import Sha1
  import Xxh32

  // ---------------------------------------------------------------- XXH32

  lemma TextBytes()
    ensures Ascii("Nobody inspects ") == [78, 111, 98, 111, 100, 121, 32, 105, 110, 115, 112, 101, 99, 116, 115, 32]
    ensures Ascii("the spammish rep") == [116, 104, 101, 32, 115, 112, 97, 109, 109, 105, 115, 104, 32, 114, 101, 112]
    ensures Ascii("etition") == [101, 116, 105, 116, 105, 111, 110]
  {
  }

  lemma Littles()
    ensures Xxh32.Little(78, 111, 98, 111) == 0x6F626F4E && Xxh32.Little(100, 121, 32, 105) == 0x69207964
    ensures Xxh32.Little(110, 115, 112, 101) == 0x6570736E && Xxh32.Little(99, 116, 115, 32) == 0x20737463
    ensures Xxh32.Little(116, 104, 101, 32) == 0x20656874 && Xxh32.Little(115, 112, 97, 109) == 0x6D617073
    ensures Xxh32.Little(109, 105, 115, 104) == 0x6873696D && Xxh32.Little(32, 114, 101, 112) == 0x70657220
    ensures Xxh32.Little(101, 116, 105, 116) == 0x74697465
  {
  }

  lemma FirstRounds()
    ensures Xxh32.Init(0) == Xxh32.Lanes(0x24234428, 0x85EBCA77, 0, 0x61C8864F)
    ensures Xxh32.Round(0x24234428, 0x6F626F4E) == 0x46A700A && Xxh32.Round(0x85EBCA77, 0x69207964) == 0xBFADF8E3
    ensures Xxh32.Round(0, 0x6570736E) == 0x5B32B4AA && Xxh32.Round(0x61C8864F, 0x20737463) == 0x137E5555
  {
  }

  lemma SecondRounds()
    ensures Xxh32.Round(0x46A700A, 0x20656874) == 0x719A836E && Xxh32.Round(0xBFADF8E3, 0x6D617073) == 0x514C1DE8
    ensures Xxh32.Round(0x5B32B4AA, 0x6873696D) == 0x97FA4BA2 && Xxh32.Round(0x137E5555, 0x70657220) == 0x242A97A2
    ensures Xxh32.Merge(Xxh32.Lanes(0x719A836E, 0x514C1DE8, 0x97FA4BA2, 0x242A97A2)) == 0x8C86B52D
  {
  }

  lemma Stripes(a: Octets, b: Octets)
    requires a == [78, 111, 98, 111, 100, 121, 32, 105, 110, 115, 112, 101, 99, 116, 115, 32]
    requires b == [116, 104, 101, 32, 115, 112, 97, 109, 109, 105, 115, 104, 32, 114, 101, 112]
    ensures Xxh32.Stripe(Xxh32.Stripe(Xxh32.Init(0), a), b) == Xxh32.Lanes(0x719A836E, 0x514C1DE8, 0x97FA4BA2, 0x242A97A2)
  {
    hide Xxh32.Little, Xxh32.Round, Xxh32.Init, Xxh32.Merge;
    Littles();
    FirstRounds();
    SecondRounds();
  }

  lemma LastRounds()
    ensures Xxh32.ProcessWord(0x8C86B554, 0x74697465) == 0x9B51544
    ensures Xxh32.Process1(0x9B51544, 105) == 0xCDEFD3C9 && Xxh32.Process1(0xCDEFD3C9, 111) == 0x3852087B
    ensures Xxh32.Process1(0x3852087B, 110) == 0xB3A7011B && Xxh32.Avalanche(0xB3A7011B) == 0xE2293B2F
  {
  }

  lemma LengthJoins()
    ensures Xxh32.AddLength(0x8C86B52D, 39) == 0x8C86B554 && Xxh32.AddLength(Xxh32.Short(0), 0) == 0x165667B1
    ensures Xxh32.Avalanche(0x165667B1) == 0x02CC5D05
  {
    hide Xxh32.AddLength, Xxh32.Short, Xxh32.Avalanche;
    LastAvalanche();
    AddsLength();
    AddsNothing();
  }

  lemma LastAvalanche()
    ensures Xxh32.Avalanche(0x165667B1) == 0x02CC5D05
  {
  }

  lemma AddsLength()
    ensures Xxh32.AddLength(0x8C86B52D, 39) == 0x8C86B554
  {
    assert 39 % 0x1_0000_0000 == 39;
    assert (39 as bv32) == 39;
    assert (0x8C86B52D as bv32) + 39 == 0x8C86B554;
  }

  lemma AddsNothing()
    ensures Xxh32.AddLength(Xxh32.Short(0), 0) == 0x165667B1
  {
  }

  lemma TailIs(s: Octets)
    requires s == [101, 116, 105, 116, 105, 111, 110]
    ensures Xxh32.Tail(0x8C86B554, s) == 0xB3A7011B
  {
    hide Xxh32.ProcessWord, Xxh32.Process1, Xxh32.Little, Xxh32.Tail;
    Littles();
    LastRounds();
    TailFour(0x8C86B554, s);
    TailOne(0x9B51544, [105, 111, 110]);
    TailOne(0xCDEFD3C9, [111, 110]);
    TailOne(0x3852087B, [110]);
    TailNone(0xB3A7011B);
    assert s[4..] == [105, 111, 110] && [105, 111, 110][1..] == [111, 110] && [111, 110][1..] == [110] && [110][1..] == [];
  }

  lemma TailFour(h: bv32, s: Octets)
    requires |s| >= 4
    ensures Xxh32.Tail(h, s) == Xxh32.Tail(Xxh32.ProcessWord(h, Xxh32.Little(s[0], s[1], s[2], s[3])), s[4..])
  {
    hide Xxh32.ProcessWord, Xxh32.Little, Xxh32.Process1;
  }

  lemma TailOne(h: bv32, s: Octets)
    requires |s| < 4
    ensures Xxh32.Tail(h, s) == if s == [] then h else Xxh32.Tail(Xxh32.Process1(h, s[0]), s[1..])
  {
    hide Xxh32.Process1, Xxh32.Process4;
  }

  /** The digests of "Nobody inspects the spammish repetition" and of the empty text. */
  lemma Xxh32Vectors()
    ensures Xxh32.Hash(Ascii("Nobody inspects ") + Ascii("the spammish rep") + Ascii("etition"), 0) == 0xE2293B2F
    ensures Xxh32.Hash([], 0) == 0x02CC5D05
  {
    hide Xxh32.Stripe, Xxh32.Merge, Xxh32.Tail, Xxh32.AddLength, Xxh32.Avalanche, Xxh32.Init, Xxh32.Short, Ascii;
    TextBytes();
    var a, b, c := Ascii("Nobody inspects "), Ascii("the spammish rep"), Ascii("etition");
    Stripes(a, b);
    SecondRounds();
    TwoBlocks(Xxh32.Init(0), a, b, c);
    LengthJoins();
    LastRounds();
    TailIs(c);
    TailNone(0x165667B1);
  }

  lemma TailNone(h: bv32)
    ensures Xxh32.Tail(h, []) == h && Rest(16, []) == []
  {
  }

  lemma TwoBlocks(v: Xxh32.Lanes, a: Octets, b: Octets, c: Octets)
    requires |a| == |b| == 16 && |c| < 16
    ensures Fold(16, Xxh32.Stripe, v, a + b + c) == Xxh32.Stripe(Xxh32.Stripe(v, a), b) && Rest(16, a + b + c) == c
  {
    hide Xxh32.Stripe;
    var m := a + b + c;
    assert m[..16] == a && m[16..] == b + c && (b + c)[..16] == b && (b + c)[16..] == c;
    assert Fold(16, Xxh32.Stripe, v, m) == Fold(16, Xxh32.Stripe, Xxh32.Stripe(v, a), b + c);
    assert Rest(16, m) == Rest(16, b + c);
  }

  // ---------------------------------------------------------------- SHA-1

  /** The message "abc", padded: the byte 0x80, zero bytes, and 24 as the number of bits. */
  lemma PaddedAbc()
    ensures Digest64.Padded(Ascii("abc"), Sha1.BitCount(3)) ==
      [0x61, 0x62, 0x63, 0x80] + Digest64.Zeros(52) + [0, 0, 0, 0, 0, 0, 0, 24]
    ensures Md5.BitCount(3) == [24, 0, 0, 0, 0, 0, 0, 0] && Sha1.Big(0x61, 0x62, 0x63, 0x80) == 0x61626380
  {
    assert Ascii("abc") == [0x61, 0x62, 0x63];
    assert Sha1.BigBytes(24) == [0, 0, 0, 24] && Sha1.BigBytes(0) == [0, 0, 0, 0];
    assert Md5.LittleBytes(24) == [24, 0, 0, 0] && Md5.LittleBytes(0) == [0, 0, 0, 0];
  }

  /** Words of its schedule, as the example in appendix A.1 of FIPS 180-2 has them. */
  lemma ScheduleAbc()
    ensures Sha1.Next(0x00000000, 0x00000000, 0x00000000, 0x61626380) == 0xC2C4C700
    ensures Sha1.Next(0x00000018, 0x00000000, 0x00000000, 0x00000000) == 0x00000030
    ensures Sha1.Next(0xE6E60B69, 0x458546F4, 0x000F0000, 0x627B49A1) == 0x822E0879
  {
  }

  /** Steps of the example: the first and last of every twenty. */
  lemma StepsTo20()
    ensures Sha1.Step(0, Sha1.INIT, 0x61626380) ==
      Sha1.Words(0x0116FC33, 0x67452301, 0x7BF36AE2, 0x98BADCFE, 0x10325476)
    ensures Sha1.Step(19, Sha1.Words(0xDC64901D, 0x82AA6728, 0xD3A49608, 0xC82F758B, 0xC65AFB9D), 0x85898E01) ==
      Sha1.Words(0xFD9E1D7D, 0xDC64901D, 0x20AA99CA, 0xD3A49608, 0xC82F758B)
  {
  }

  lemma StepsTo40()
    ensures Sha1.Step(20, Sha1.Words(0xFD9E1D7D, 0xDC64901D, 0x20AA99CA, 0xD3A49608, 0xC82F758B), 0x00000000) ==
      Sha1.Words(0x1A37B0CA, 0xFD9E1D7D, 0x77192407, 0x20AA99CA, 0xD3A49608)
    ensures Sha1.Step(39, Sha1.Words(0x4C986405, 0xDC63973F, 0x03D447F6, 0xF72EEC32, 0x085E5AB5), 0x000018C0) ==
      Sha1.Words(0x32DE1CBA, 0x4C986405, 0xF718E5CF, 0x03D447F6, 0xF72EEC32)
  {
  }

  lemma StepsTo60()
    ensures Sha1.Step(40, Sha1.Words(0x32DE1CBA, 0x4C986405, 0xF718E5CF, 0x03D447F6, 0xF72EEC32), 0xD2E138C4) ==
      Sha1.Words(0xFC87DEDF, 0x32DE1CBA, 0x53261901, 0xF718E5CF, 0x03D447F6)
    ensures Sha1.Step(59, Sha1.Words(0x09D785FD, 0xD262FF50, 0xF211824F, 0xD79915AB, 0x5EDC7DDB), 0x44584CB7) ==
      Sha1.Words(0x3F52DE5A, 0x09D785FD, 0x3498BFD4, 0xF211824F, 0xD79915AB)
  {
  }

  lemma StepsTo80()
    ensures Sha1.Step(60, Sha1.Words(0x3F52DE5A, 0x09D785FD, 0x3498BFD4, 0xF211824F, 0xD79915AB), 0x7BA06619) ==
      Sha1.Words(0xD756C147, 0x3F52DE5A, 0x4275E17F, 0x3498BFD4, 0xF211824F)
    ensures Sha1.Step(79, Sha1.Words(0x5738D5E1, 0x860D21CC, 0x681E6DF6, 0xD8FDF6AD, 0xD7B9DA25), 0x822E0879) ==
      Sha1.Words(0x42541B35, 0x5738D5E1, 0x21834873, 0x681E6DF6, 0xD8FDF6AD)
  {
  }

  /** The sum with the start is the published digest. */
  lemma DigestAbc()
    ensures Sha1.Plus(Sha1.INIT, Sha1.Words(0x42541B35, 0x5738D5E1, 0x21834873, 0x681E6DF6, 0xD8FDF6AD)) ==
      Sha1.Words(0xA9993E36, 0x4706816A, 0xBA3E2571, 0x7850C26C, 0x9CD0D89D)
  {
  }
}
